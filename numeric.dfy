/** Integer helpers and the `f64 as isize` conversion used by the renderer. */
module Numeric {

  function Abs(n: int): (r: nat)
    ensures r == n || r == -n
  {
    if n < 0 then -n else n
  }

  function Min(a: int, b: int): (r: int)
    ensures r <= a && r <= b && (r == a || r == b)
  {
    if a <= b then a else b
  }

  function Max(a: int, b: int): (r: int)
    ensures a <= r && b <= r && (r == a || r == b)
  {
    if a <= b then b else a
  }

  /** `v as isize` for a value well inside the isize range: truncation toward zero. */
  function Trunc(v: real): (n: int)
    ensures 0.0 <= v ==> n as real <= v < n as real + 1.0
    ensures v < 0.0 ==> n as real - 1.0 < v <= n as real
  {
    if 0.0 <= v then v.Floor else -((-v).Floor)
  }

  /** Truncation never reverses the order of two values. */
  lemma TruncMonotone(u: real, v: real)
    requires u <= v
    ensures Trunc(u) <= Trunc(v)
  {
    if u < 0.0 <= v {
      assert Trunc(u) <= 0 <= Trunc(v);
    }
  }

  /** An integral value is converted exactly. */
  lemma TruncOfInt(n: int)
    ensures Trunc(n as real) == n
  {
  }

  /** A value between two integers truncates to a value between them. */
  lemma TruncBetween(v: real, lo: int, hi: int)
    requires lo as real <= v <= hi as real
    ensures lo <= Trunc(v) <= hi
  {
    TruncMonotone(lo as real, v);
    TruncMonotone(v, hi as real);
    TruncOfInt(lo);
    TruncOfInt(hi);
  }

  /** Values at most one apart truncate to integers at most one apart. */
  lemma TruncStep(u: real, v: real)
    requires u <= v <= u + 1.0
    ensures Trunc(u) <= Trunc(v) <= Trunc(u) + 1
  {
    TruncMonotone(u, v);
    if u < 0.0 <= v {
      assert Trunc(v) == 0 || v >= 1.0;
    }
  }
}
