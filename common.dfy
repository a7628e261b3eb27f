/** Option and Result, used for C's NULL results and Python's exceptions. */
module Results {

  datatype Option<T> = None | Some(value: T)

  datatype Result<T, E> = Ok(value: T) | Err(error: E)
}

/** Bytes as the C and Python sources see them: integers in 0..255. */
module Bytes {

  type byte = b: int | 0 <= b < 256

  /** The NUL terminator. */
  const Nul: byte := 0

  /** `(unsigned char)v` for a C `int`: reduction modulo 256. */
  function ToByte(v: int): (b: byte)
    ensures (b - v) % 256 == 0
  {
    v % 256
  }

  /** The value a byte has as a (signed, on i386) C `char` promoted to `int`. */
  function SignedChar(b: byte): (c: int)
    ensures -128 <= c < 128
    ensures ToByte(c) == b
  {
    if b < 128 then b else b - 256
  }

  /** A sequence of `n` zero bytes. */
  function Zeros(n: nat): (z: seq<byte>)
    ensures |z| == n
    ensures forall i :: 0 <= i < n ==> z[i] == 0
  {
    seq(n, _ => 0)
  }
}

/** Facts about integer division that the solver does not find unaided. */
module Arith {

  lemma MulLe(a: nat, x: nat, y: nat)
    requires x <= y
    ensures a * x <= a * y
  {
  }

  lemma DivMod(q: nat, b: nat)
    requires b > 0
    ensures q / b * b + q % b == q
  {
  }

  /** The quotient of `v` by `m` is the `q` of any `v == m * q + s` with
      `0 <= s < m`. */
  lemma DivUnique(v: nat, m: nat, q: nat, s: nat)
    requires m > 0 && v == m * q + s && s < m
    ensures v / m == q
  {
    var q0, s0 := v / m, v % m;
    assert v == m * q0 + s0;
    if q0 < q {
      assert m * q0 + m <= m * q by { MulLe(m, q0 + 1, q); }
    } else if q0 > q {
      assert m * q + m <= m * q0 by { MulLe(m, q + 1, q0); }
    }
  }

  /** Dividing by `a`, then by `b`, is dividing by `a * b`. */
  lemma DivDiv(v: nat, a: nat, b: nat)
    requires a > 0 && b > 0
    ensures v / a / b == v / (a * b)
  {
    var q, r := v / a, v % a;
    var q2, r2 := q / b, q % b;
    DivMod(v, a);
    DivMod(q, b);
    Regroup(v, a, b, q, r, q2, r2);
    RemainderBound(a, b, r, r2);
    DivUnique(v, a * b, q2, a * r2 + r);
  }

  /** `v = a q + r` with `q = b q2 + r2` is `v = (a b) q2 + (a r2 + r)`. */
  lemma Regroup(v: int, a: int, b: int, q: int, r: int, q2: int, r2: int)
    requires v == q * a + r && q == q2 * b + r2
    ensures v == (a * b) * q2 + (a * r2 + r)
  {
    calc {
      v;
      (q2 * b + r2) * a + r;
      { assert (q2 * b + r2) * a == (a * b) * q2 + a * r2; }
      (a * b) * q2 + (a * r2 + r);
    }
  }

  /** With `r < a` and `r2 < b`, the mixed remainder `a r2 + r` is below
      `a b`. */
  lemma RemainderBound(a: nat, b: nat, r: nat, r2: nat)
    requires r < a && r2 < b
    ensures a * r2 + r < a * b
  {
    MulLe(a, r2, b - 1);
    assert a * (b - 1) == a * b - a;
  }

  /** A value below `b * p` has a quotient by `b` below `p`. */
  lemma DivBelow(v: nat, b: nat, p: nat)
    requires b > 0 && v < b * p
    ensures v / b < p
  {
    var q := v / b;
    assert v == b * q + v % b;
    if q >= p {
      MulLe(b, p, q);
    }
  }

  /** Dividing a positive value by at least 2 makes it smaller. */
  lemma DivShrinks(v: nat, b: nat)
    requires b >= 2 && v > 0
    ensures v / b < v
  {
    MulLe(v, 2, b);
    DivBelow(v, b, v);
  }

  /** The quotient is 0 exactly for a value below the divisor. */
  lemma DivZeroIff(v: nat, b: nat)
    requires b > 0
    ensures (v / b == 0) == (v < b)
  {
    DivMod(v, b);
    if v < b {
      DivBelow(v, b, 1);
    }
  }
}
