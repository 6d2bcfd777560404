/** The pool's integer square root: a Newton iteration over machine integers,
    proved against the floor of the real square root. */
module SquareRoot {
  import opened Common

  /** The reference: the largest r with r * r <= x, found by counting. */
  function FloorSqrt(x: nat): (r: nat)
    ensures r * r <= x < (r + 1) * (r + 1)
  {
    if x == 0 then 0
    else
      var r := FloorSqrt(x - 1);
      if (r + 1) * (r + 1) <= x then r + 1 else r
  }

  /** The two bounds pin the root down. */
  lemma FloorSqrtUnique(x: nat, r: nat)
    requires r * r <= x < (r + 1) * (r + 1)
    ensures r == FloorSqrt(x)
  {
    RootAtLeast(x, r);
    RootAtMost(x, r);
  }

  /** What `sqrt` returns: inputs above half the i128 range abort, inputs at most
      one (the negative ones included) come back unchanged. */
  function SqrtSpec(x: int): Result<int> {
    if x > I128_MAX / 2 then Panic
    else if x <= 1 then Ok(x)
    else Ok(FloorSqrt(x))
  }

  /** One Newton step: the average of z and x / z. */
  function NewtonStep(x: int, z: int): int
    requires z != 0
  {
    (x / z + z) / 2
  }

  /** Averaging z with x / z cannot drop below the root (AM-GM, with floors). */
  lemma NewtonStaysAbove(x: int, z: int)
    requires 2 <= x && 1 <= z < x
    ensures 1 <= x / z <= x
    ensures FloorSqrt(x) <= NewtonStep(x, z)
  {
    TruncDivIsFloor(x, z);
    AverageStaysAbove(x, z, x / z);
    RootAtMost(x, NewtonStep(x, z));
  }

  lemma AverageStaysAbove(x: int, z: int, q: int)
    requires 1 <= z < x && 0 <= q && x < (q + 1) * z
    ensures 1 <= q
    ensures var next := (q + z) / 2; x < (next + 1) * (next + 1)
  {
    var next := (q + z) / 2;
    var w := next + 1;
    assert q + 1 + z <= 2 * w;
    FourTimesProduct(q + 1, z);
    SquareOfDouble(q + 1 + z, w);
  }

  lemma FourTimesProduct(p: int, z: int)
    ensures 4 * (p * z) <= (p + z) * (p + z)
  {
    var d := p - z;
    assert (p + z) * (p + z) == d * d + 4 * (p * z);
    assert 0 <= d * d;
  }

  lemma SquareOfDouble(s: int, w: int)
    requires 0 <= s <= 2 * w
    ensures s * s <= 4 * (w * w)
  {
    MulMono(s, 2 * w, s);
    MulMono(s, 2 * w, 2 * w);
  }

  lemma RootAtMost(x: nat, z: int)
    requires 0 <= z && x < (z + 1) * (z + 1)
    ensures FloorSqrt(x) <= z
  {
    var f := FloorSqrt(x);
    if z < f {
      MulMono(z + 1, f, z + 1);
      MulMono(z + 1, f, f);
    }
  }

  lemma RootAtLeast(x: nat, z: nat)
    requires z * z <= x
    ensures z <= FloorSqrt(x)
  {
    var f := FloorSqrt(x);
    if f < z {
      MulMono(f + 1, z, f + 1);
      MulMono(f + 1, z, z);
    }
  }

  /** When a step no longer decreases the estimate, the estimate is the root. */
  lemma NewtonExit(x: int, y: int)
    requires 2 <= x && 1 <= y <= NewtonStep(x, y)
    ensures y <= FloorSqrt(x)
  {
    TruncDivIsFloor(x, y);
    MulMono(y, x / y, y);
    RootAtLeast(x, y);
  }

  /** The starting estimate, about x / 2, is at least the root and below x. */
  lemma NewtonStart(x: int)
    requires 2 <= x
    ensures 1 <= FloorSqrt(x) <= (x + 1) / 2 < x
  {
    var z := (x + 1) / 2;
    MulMono(2, z + 1, z + 1);
    RootAtMost(x, z);
    RootAtLeast(x, 1);
  }

  /** Newton's iteration from above. It aborts exactly on inputs beyond half the
      i128 range: the division is never by zero and the addition never overflows. */
  method Sqrt(x: int) returns (r: Result<int>)
    requires I128_MIN <= x <= I128_MAX
    ensures r == SqrtSpec(x)
    ensures r.Panic? <==> I128_MAX / 2 < x
    ensures r.Ok? && x <= 1 ==> r.value == x
    ensures r.Ok? && 0 <= x ==> 0 <= r.value && r.value * r.value <= x < (r.value + 1) * (r.value + 1)
  {
    if x == 0 || x == 1 {
      return Ok(x);
    }
    if x > I128_MAX / 2 {
      return Panic;
    }
    var z := TruncDiv(x + 1, 2);
    var y := x;
    if 2 <= x {
      NewtonStart(x);
    }
    while z < y
      invariant x < 0 ==> y == x <= z
      invariant 2 <= x ==> 1 <= FloorSqrt(x) <= z < x && FloorSqrt(x) <= y <= x
      invariant 2 <= x ==> z < y || z == NewtonStep(x, y)
      decreases y
    {
      y := z;
      NewtonStaysAbove(x, z);
      var quotient := x / z;
      var sum := Checked(quotient + z);
      z := sum.Extract() / 2;
    }
    if 2 <= x {
      NewtonExit(x, y);
    }
    return Ok(y);
  }
}
