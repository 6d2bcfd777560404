/** What the pool guarantees: invariants over every run of calls, and the exact
    conditions under which no sequence of operations gains against it. */
module PoolProofs {
  import opened Common
  import opened SquareRoot
  import opened LiquidityPool

  // ----- runs -----

  datatype Call =
    | AddLiquidity(provider: Address, aDesired: int, bDesired: int, aMin: int, bMin: int)
    | RemoveLiquidity(provider: Address, liquidity: int)
    | Swap(timestamp: nat, user: Address, token: Token, amountIn: int, minOut: int)

  /** The state after one call; an aborted call changes nothing. */
  function Step(s: State, c: Call): State {
    match c
    case AddLiquidity(provider, aDesired, bDesired, aMin, bMin) =>
      After(AddLiquiditySpec(s, provider, aDesired, bDesired, aMin, bMin), s)
    case RemoveLiquidity(provider, liquidity) => After(RemoveLiquiditySpec(s, provider, liquidity), s)
    case Swap(timestamp, user, token, amountIn, minOut) =>
      After(SwapSpec(s, timestamp, user, token, amountIn, minOut), s)
  }

  function Run(s: State, calls: seq<Call>): State {
    if calls == [] then s else Step(Run(s, calls[..|calls| - 1]), calls[|calls| - 1])
  }

  ghost predicate Inv(s: State) {
    && 0 <= s.reserveA <= I128_MAX && 0 <= s.reserveB <= I128_MAX && 0 <= s.totalLiquidity
    && s.totalLiquidity * s.totalLiquidity <= s.reserveA * s.reserveB
    && (s.totalLiquidity == 0 ==> s.reserveA * s.reserveB == 0)
    && (forall p :: p in s.positions ==> 0 <= s.positions[p])
    && Sum(s.positions) == s.totalLiquidity
  }

  /** Outstanding shares are always backed on both sides. */
  lemma SharesAreBacked(s: State)
    requires Inv(s)
    ensures 0 < s.totalLiquidity ==> 0 < s.reserveA && 0 < s.reserveB
  {
    if 0 < s.totalLiquidity {
      MulMono(1, s.totalLiquidity, s.totalLiquidity);
    }
  }

  // ----- swaps -----

  /** A payout of p for an input of a keeps the reserves' product, counting the
      input net of the 0.3% fee (both sides scaled by 1000). */
  ghost predicate KeepsNetProduct(rIn: int, rOut: int, a: int, p: int) {
    (1000 * rIn) * rOut <= (1000 * rIn + 997 * a) * (rOut - p)
  }

  lemma FloorMeaning(d: int, x: int, rOut: int, o: int)
    requires 0 <= d && 0 < x && 0 <= rOut
    requires o * (d + x) <= x * rOut < (o + 1) * (d + x)
    ensures 0 <= o <= rOut
    ensures d * rOut <= (d + x) * (rOut - o)
    ensures d == 0 ==> o == rOut
    ensures 0 < d && 0 < rOut ==> o < rOut
  {
    MulMono(0, rOut, x);
    MulMono(0, rOut, d);
    FloorIsLargest(o, 0, x * rOut, d + x);
    assert (d + x) * (rOut - o) == d * rOut + (x * rOut - o * (d + x));
    assert (rOut + 1) * (d + x) == x * rOut + d * rOut + (d + x);
    if rOut < o {
      MulMono(rOut + 1, o, d + x);
    }
    if d == 0 {
      FloorIsLargest(o, rOut, x * rOut, x);
    }
    if o == rOut && 0 < d && 0 < rOut {
      MulMono(1, rOut, d);
    }
  }

  lemma FloorLargest(d: int, x: int, rOut: int, o: int, p: int)
    requires 0 <= d && 0 < x
    requires x * rOut < (o + 1) * (d + x)
    requires d * rOut <= (d + x) * (rOut - p)
    ensures p <= o
  {
    assert (d + x) * (rOut - p) == d * rOut + (x * rOut - p * (d + x));
    FloorIsLargest(o, p, x * rOut, d + x);
  }

  lemma SwapOutputIsFloor(rIn: int, rOut: int, a: int, o: int)
    requires 0 <= rIn && 0 <= rOut && 0 < a && SwapOutput(rIn, rOut, a) == Ok(o)
    ensures var x := 997 * a; var d := 1000 * rIn;
      o * (d + x) <= x * rOut < (o + 1) * (d + x)
  {
    var x := 997 * a;
    MulMono(0, rOut, x);
    TruncDivIsFloor(x * rOut, 1000 * rIn + x);
  }

  /** The payout o of a swap is the largest one that keeps the net product; it
      never exceeds the reserve, and takes all of it only when nothing backs it. */
  lemma SwapOutputMeaning(rIn: int, rOut: int, a: int, o: int)
    requires 0 <= rIn && 0 <= rOut && 0 < a && SwapOutput(rIn, rOut, a) == Ok(o)
    ensures 0 <= o <= rOut
    ensures KeepsNetProduct(rIn, rOut, a, o)
    ensures forall p :: KeepsNetProduct(rIn, rOut, a, p) ==> p <= o
    ensures rIn == 0 ==> o == rOut
    ensures 0 < rIn && 0 < rOut ==> o < rOut
  {
    SwapOutputIsFloor(rIn, rOut, a, o);
    FloorMeaning(1000 * rIn, 997 * a, rOut, o);
    forall p | KeepsNetProduct(rIn, rOut, a, p)
      ensures p <= o
    {
      FloorLargest(1000 * rIn, 997 * a, rOut, o, p);
    }
  }

  /** The reserves' product never falls in a swap, and grows strictly when both
      sides were backed, because the fee stays inside. */
  lemma SwapGrowsProduct(rIn: int, rOut: int, a: int, left: int)
    requires 0 <= rIn && 0 <= rOut && 0 < a && 0 <= left
    requires KeepsNetProduct(rIn, rOut, a, rOut - left)
    ensures rIn * rOut <= (rIn + a) * left
    ensures 0 < left ==> rIn * rOut < (rIn + a) * left
  {
    assert (1000 * rIn + 997 * a) * left == 1000 * ((rIn + a) * left) - 3 * (a * left);
    assert (1000 * rIn) * rOut == 1000 * (rIn * rOut);
    MulMono(0, left, a);
    if 0 < left {
      MulMono(1, left, a);
    }
  }

  // ----- adding and removing liquidity -----

  /** m shares are the most that a deposit of a and b can be given without
      diluting either side. */
  ghost predicate LargestFairShare(s: State, a: int, b: int, m: int) {
    && FairShare(s, a, b, m)
    && forall n: int :: FairShare(s, a, b, n) ==> n <= m
  }

  ghost predicate FairShare(s: State, a: int, b: int, n: int) {
    n * s.reserveA <= a * s.totalLiquidity && n * s.reserveB <= b * s.totalLiquidity
  }

  lemma SharesForMeaning(amount: int, total: int, reserve: int, m: int)
    requires 0 < total && 0 < reserve && SharesFor(amount, total, reserve) == Ok(m) && 0 < m
    ensures 0 < amount
    ensures m * reserve <= amount * total < (m + 1) * reserve
  {
    if amount <= 0 {
      MulMono(amount, 0, total);
      TruncDivSign(amount * total, reserve);
    }
    MulMono(0, amount, total);
    TruncDivIsFloor(amount * total, reserve);
  }

  /** A later provision takes a positive amount of each token, never more than was
      offered, all of at least one of them, and mints the largest fair share. */
  lemma LaterProvisionMeaning(s: State, provider: Address, aDesired: int, bDesired: int,
                              aMin: int, bMin: int, t: State, minted: int)
    requires Inv(s) && 0 < s.totalLiquidity
    requires AddLiquiditySpec(s, provider, aDesired, bDesired, aMin, bMin) == Ok((t, minted))
    ensures var a, b := t.reserveA - s.reserveA, t.reserveB - s.reserveB;
      && 0 < minted && t.totalLiquidity == s.totalLiquidity + minted
      && 0 < a <= aDesired && aMin <= a && 0 < b <= bDesired && bMin <= b
      && (a == aDesired || b == bDesired)
      && LargestFairShare(s, a, b, minted)
  {
    SharesAreBacked(s);
    var a, b := t.reserveA - s.reserveA, t.reserveB - s.reserveB;
    assert DepositAmounts(s, aDesired, bDesired, aMin, bMin) == Ok((a, b));
    var mA := SharesFor(a, s.totalLiquidity, s.reserveA).value;
    var mB := SharesFor(b, s.totalLiquidity, s.reserveB).value;
    SharesForMeaning(a, s.totalLiquidity, s.reserveA, mA);
    SharesForMeaning(b, s.totalLiquidity, s.reserveB, mB);
    MulMono(minted, mA, s.reserveA);
    MulMono(minted, mB, s.reserveB);
    forall n: int | FairShare(s, a, b, n)
      ensures n <= minted
    {
      FloorIsLargest(mA, n, a * s.totalLiquidity, s.reserveA);
      FloorIsLargest(mB, n, b * s.totalLiquidity, s.reserveB);
    }
  }

  /** Both amounts of a later provision: all that was offered of one token, and of
      the other what the reserves' ratio gives for it, rounded down. Token A is the
      one taken whole exactly when its counterpart does not exceed the offer. */
  ghost predicate InRatio(s: State, aDesired: int, bDesired: int, a: int, b: int) {
    || (a == aDesired && IsFloor(b, aDesired * s.reserveB, s.reserveA) && b <= bDesired)
    || (b == bDesired && IsFloor(a, bDesired * s.reserveA, s.reserveB)
        && (bDesired + 1) * s.reserveA <= aDesired * s.reserveB)
  }

  /** Taking a and b for m shares is what a later provision should do, within the
      caller's minima and the machine's range. */
  ghost predicate Provides(s: State, c: Call, a: int, b: int, m: int)
    requires c.AddLiquidity?
  {
    && InRatio(s, c.aDesired, c.bDesired, a, b) && c.aMin <= a && c.bMin <= b
    && 0 < m && LargestFairShare(s, a, b, m)
    && c.aDesired * s.reserveB <= I128_MAX
    && a * s.totalLiquidity <= I128_MAX && b * s.totalLiquidity <= I128_MAX
    && s.reserveA + a <= I128_MAX && s.reserveB + b <= I128_MAX && s.totalLiquidity + m <= I128_MAX
  }

  lemma WholeOfA(s: State, aDesired: int, bDesired: int, b: int)
    requires 0 < s.reserveA && IsFloor(b, aDesired * s.reserveB, s.reserveA)
    ensures b <= bDesired <==> aDesired * s.reserveB < (bDesired + 1) * s.reserveA
  {
    if b <= bDesired {
      MulMono(b + 1, bDesired + 1, s.reserveA);
    } else {
      MulMono(bDesired + 1, b, s.reserveA);
    }
  }

  lemma WholeOfB(s: State, aDesired: int, bDesired: int, a: int)
    requires 0 < s.reserveA && 0 < s.reserveB && IsFloor(a, bDesired * s.reserveA, s.reserveB)
    requires (bDesired + 1) * s.reserveA <= aDesired * s.reserveB
    ensures a <= aDesired && bDesired * s.reserveA <= aDesired * s.reserveB
  {
    assert (bDesired + 1) * s.reserveA == bDesired * s.reserveA + s.reserveA;
    MulCancel(a, aDesired, s.reserveB);
  }

  lemma QuoteExactly(amount: int, reserve: int, other: int, q: int)
    requires 0 < amount && 0 < reserve && 0 < other
    ensures 0 <= amount * other
    ensures Quote(amount, reserve, other)
         == if amount * other <= I128_MAX then Ok(TruncDiv(amount * other, reserve)) else Panic
    ensures TruncDiv(amount * other, reserve) == q <==> IsFloor(q, amount * other, reserve)
  {
    MulMono(0, amount, other);
    TruncDivIsFloor(amount * other, reserve);
    TruncDivExactly(amount * other, reserve, q);
  }

  /** For positive offers the deposited pair is the one in the ratio. */
  lemma DepositInRatio(s: State, aDesired: int, bDesired: int, aMin: int, bMin: int, a: int, b: int)
    requires 0 < s.totalLiquidity && 0 < s.reserveA && 0 < s.reserveB && 0 < aDesired && 0 < bDesired
    requires aMin <= a && bMin <= b
    ensures DepositAmounts(s, aDesired, bDesired, aMin, bMin) == Ok((a, b))
       <==> InRatio(s, aDesired, bDesired, a, b) && aDesired * s.reserveB <= I128_MAX
  {
    var bOptimal := TruncDiv(aDesired * s.reserveB, s.reserveA);
    var aOptimal := TruncDiv(bDesired * s.reserveA, s.reserveB);
    QuoteExactly(aDesired, s.reserveA, s.reserveB, bOptimal);
    QuoteExactly(aDesired, s.reserveA, s.reserveB, b);
    QuoteExactly(bDesired, s.reserveB, s.reserveA, aOptimal);
    QuoteExactly(bDesired, s.reserveB, s.reserveA, a);
    WholeOfA(s, aDesired, bDesired, bOptimal);
    if bDesired < bOptimal {
      WholeOfB(s, aDesired, bDesired, aOptimal);
    }
  }

  lemma SharesForExactly(amount: int, total: int, reserve: int)
    requires 0 < amount && 0 < total && 0 < reserve
    ensures var m := TruncDiv(amount * total, reserve);
      && 0 <= m && IsFloor(m, amount * total, reserve)
      && SharesFor(amount, total, reserve) == (if amount * total <= I128_MAX then Ok(m) else Panic)
  {
    MulMono(0, amount, total);
    TruncDivIsFloor(amount * total, reserve);
  }

  /** The shares minted are the largest fair share. */
  lemma SharesAreLargest(s: State, a: int, b: int, m: int)
    requires 0 < s.totalLiquidity && 0 < s.reserveA && 0 < s.reserveB && 0 < a && 0 < b
    ensures SharesMinted(s, a, b) == Ok(m)
       <==> LargestFairShare(s, a, b, m) && a * s.totalLiquidity <= I128_MAX && b * s.totalLiquidity <= I128_MAX
  {
    SharesForExactly(a, s.totalLiquidity, s.reserveA);
    SharesForExactly(b, s.totalLiquidity, s.reserveB);
    var mA := TruncDiv(a * s.totalLiquidity, s.reserveA);
    var mB := TruncDiv(b * s.totalLiquidity, s.reserveB);
    var least := if mA < mB then mA else mB;
    MulMono(least, mA, s.reserveA);
    MulMono(least, mB, s.reserveB);
    forall n: int | FairShare(s, a, b, n)
      ensures n <= least
    {
      FloorIsLargest(mA, n, a * s.totalLiquidity, s.reserveA);
      FloorIsLargest(mB, n, b * s.totalLiquidity, s.reserveB);
    }
    assert LargestFairShare(s, a, b, least);
  }

  function Provided(s: State, provider: Address, a: int, b: int, m: int): State {
    s.(reserveA := s.reserveA + a, reserveB := s.reserveB + b, totalLiquidity := s.totalLiquidity + m,
       positions := s.positions[provider := Get(s.positions, provider) + m])
  }

  lemma FairSharesArePaidFor(s: State, a: int, b: int, m: int)
    requires 0 < s.totalLiquidity && 0 < s.reserveA && 0 < s.reserveB && 0 < m && FairShare(s, a, b, m)
    ensures 0 < a && 0 < b
  {
    MulMono(1, m, s.reserveA);
    MulMono(1, m, s.reserveB);
    MulCancel(1, a, s.totalLiquidity);
    MulCancel(1, b, s.totalLiquidity);
  }

  /** A later provision does exactly what it should: it takes a and b and mints m
      if and only if those are the amounts in ratio, within the minima, and the
      largest fair share of them. */
  lemma LaterProvisionExactly(s: State, c: Call, a: int, b: int, m: int)
    requires Inv(s) && 0 < s.totalLiquidity && c.AddLiquidity?
    ensures AddLiquiditySpec(s, c.provider, c.aDesired, c.bDesired, c.aMin, c.bMin)
            == Ok((Provided(s, c.provider, a, b, m), m))
       <==> Provides(s, c, a, b, m)
  {
    SharesAreBacked(s);
    EntryAtMostSum(s.positions, c.provider);
    var r := AddLiquiditySpec(s, c.provider, c.aDesired, c.bDesired, c.aMin, c.bMin);
    if r == Ok((Provided(s, c.provider, a, b, m), m)) {
      LaterProvisionMeaning(s, c.provider, c.aDesired, c.bDesired, c.aMin, c.bMin, r.value.0, m);
      DepositInRatio(s, c.aDesired, c.bDesired, c.aMin, c.bMin, a, b);
      SharesAreLargest(s, a, b, m);
    }
    if Provides(s, c, a, b, m) {
      FairSharesArePaidFor(s, a, b, m);
      if b == c.bDesired && IsFloor(a, c.bDesired * s.reserveA, s.reserveB)
         && (c.bDesired + 1) * s.reserveA <= c.aDesired * s.reserveB {
        WholeOfB(s, c.aDesired, c.bDesired, a);
      }
      DepositInRatio(s, c.aDesired, c.bDesired, c.aMin, c.bMin, a, b);
      SharesAreLargest(s, a, b, m);
    }
  }

  /** When a later provision succeeds: some amounts and shares are as they should. */
  lemma LaterProvisionSucceedsExactly(s: State, c: Call)
    requires Inv(s) && 0 < s.totalLiquidity && c.AddLiquidity?
    ensures AddLiquiditySpec(s, c.provider, c.aDesired, c.bDesired, c.aMin, c.bMin).Ok?
       <==> exists a, b, m :: Provides(s, c, a, b, m)
  {
    var r := AddLiquiditySpec(s, c.provider, c.aDesired, c.bDesired, c.aMin, c.bMin);
    if r.Ok? {
      var (t, m) := r.value;
      var a, b := t.reserveA - s.reserveA, t.reserveB - s.reserveB;
      assert t == Provided(s, c.provider, a, b, m);
      LaterProvisionExactly(s, c, a, b, m);
    }
    if a, b, m :| Provides(s, c, a, b, m) {
      LaterProvisionExactly(s, c, a, b, m);
    }
  }

  /** The first provision takes everything offered and mints the floor of the
      geometric mean less the minimum; both amounts then have the same sign. */
  lemma FirstProvisionMeaning(s: State, provider: Address, aDesired: int, bDesired: int,
                              aMin: int, bMin: int, t: State, minted: int)
    requires s.totalLiquidity == 0
    requires AddLiquiditySpec(s, provider, aDesired, bDesired, aMin, bMin) == Ok((t, minted))
    ensures t.reserveA == s.reserveA + aDesired && t.reserveB == s.reserveB + bDesired
    ensures t.totalLiquidity == minted && 0 < minted
    ensures 0 < aDesired * bDesired && minted == FloorSqrt(aDesired * bDesired) - MINIMUM_LIQUIDITY
    ensures minted * minted < aDesired * bDesired
    ensures aDesired != 0 && (0 < aDesired <==> 0 < bDesired)
  {
    var product := aDesired * bDesired;
    assert SqrtSpec(product).Ok? && MINIMUM_LIQUIDITY < SqrtSpec(product).value;
    BelowRoot(product, minted);
    SameSign(aDesired, bDesired);
  }

  lemma BelowRoot(x: nat, m: nat)
    requires FloorSqrt(x) == m + MINIMUM_LIQUIDITY
    ensures m * m < x
  {
    var root := FloorSqrt(x);
    MulMono(m, root, m);
    MulMono(m, root - 1, root);
  }

  lemma SameSign(x: int, y: int)
    requires 0 < x * y
    ensures x != 0 && (0 < x <==> 0 < y)
  {
    if 0 <= x && y <= 0 {
      MulMono(y, 0, x);
    }
    if x <= 0 && 0 <= y {
      MulMono(x, 0, y);
    }
  }

  /** A removal burns a positive number of shares the provider holds, and pays the
      largest amounts that do not exceed the shares' part of each reserve. */
  lemma RemovalMeaning(s: State, provider: Address, liquidity: int, t: State, a: int, b: int)
    requires Inv(s) && RemoveLiquiditySpec(s, provider, liquidity) == Ok((t, (a, b)))
    ensures 0 < liquidity <= Get(s.positions, provider) <= s.totalLiquidity
    ensures a == s.reserveA - t.reserveA && b == s.reserveB - t.reserveB
    ensures 0 < a <= s.reserveA && 0 < b <= s.reserveB
    ensures a * s.totalLiquidity <= liquidity * s.reserveA < (a + 1) * s.totalLiquidity
    ensures b * s.totalLiquidity <= liquidity * s.reserveB < (b + 1) * s.totalLiquidity
    ensures liquidity == s.totalLiquidity ==> t.reserveA == 0 && t.reserveB == 0
  {
    SharesAreBacked(s);
    var total := s.totalLiquidity;
    EntryAtMostSum(s.positions, provider);
    if liquidity <= 0 {
      MulMono(liquidity, 0, s.reserveA);
      TruncDivSign(liquidity * s.reserveA, total);
    }
    MulMono(0, liquidity, s.reserveA);
    MulMono(0, liquidity, s.reserveB);
    TruncDivIsFloor(liquidity * s.reserveA, total);
    TruncDivIsFloor(liquidity * s.reserveB, total);
    MulMono(liquidity, total, s.reserveA);
    MulMono(liquidity, total, s.reserveB);
    MulCancel(a, s.reserveA, total);
    MulCancel(b, s.reserveB, total);
    if liquidity == total {
      FloorIsLargest(a, s.reserveA, total * s.reserveA, total);
      FloorIsLargest(b, s.reserveB, total * s.reserveB, total);
    }
  }

  function Removed(s: State, provider: Address, liquidity: int, a: int, b: int): State {
    s.(reserveA := s.reserveA - a, reserveB := s.reserveB - b, totalLiquidity := s.totalLiquidity - liquidity,
       positions := s.positions[provider := Get(s.positions, provider) - liquidity])
  }

  lemma TotalFits(s: State)
    requires Inv(s)
    ensures s.totalLiquidity <= I128_MAX
  {
    if I128_MAX < s.totalLiquidity {
      MulMono(s.reserveA, I128_MAX, s.reserveB);
      MulMono(s.reserveB, I128_MAX, I128_MAX);
      MulMono(I128_MAX + 1, s.totalLiquidity, s.totalLiquidity);
      MulMono(I128_MAX + 1, s.totalLiquidity, I128_MAX + 1);
    }
  }

  /** A removal pays a and b if and only if the shares are held, those are the floors
      of their part of the reserves, neither is nothing, and the products fit. */
  lemma RemovalExactly(s: State, provider: Address, liquidity: int, a: int, b: int)
    requires Inv(s)
    ensures RemoveLiquiditySpec(s, provider, liquidity) == Ok((Removed(s, provider, liquidity, a, b), (a, b)))
       <==> && 0 < liquidity <= Get(s.positions, provider) && 0 < a && 0 < b
            && liquidity * s.reserveA <= I128_MAX && liquidity * s.reserveB <= I128_MAX
            && IsFloor(a, liquidity * s.reserveA, s.totalLiquidity)
            && IsFloor(b, liquidity * s.reserveB, s.totalLiquidity)
  {
    var r := RemoveLiquiditySpec(s, provider, liquidity);
    EntryAtMostSum(s.positions, provider);
    TotalFits(s);
    if r.Ok? {
      RemovalMeaning(s, provider, liquidity, r.value.0, r.value.1.0, r.value.1.1);
    }
    if 0 < liquidity <= Get(s.positions, provider) {
      RemovalPays(s, liquidity, s.reserveA, a);
      RemovalPays(s, liquidity, s.reserveB, b);
    }
  }

  lemma RemovalPays(s: State, liquidity: int, reserve: int, a: int)
    requires 0 < liquidity <= s.totalLiquidity && 0 <= reserve
    ensures var q := TruncDiv(liquidity * reserve, s.totalLiquidity);
      && 0 <= liquidity * reserve && 0 <= q <= reserve
      && (q == a <==> IsFloor(a, liquidity * reserve, s.totalLiquidity))
  {
    MulMono(0, reserve, liquidity);
    MulMono(liquidity, s.totalLiquidity, reserve);
    TruncDivIsFloor(liquidity * reserve, s.totalLiquidity);
    TruncDivExactly(liquidity * reserve, s.totalLiquidity, a);
    MulCancel(TruncDiv(liquidity * reserve, s.totalLiquidity), reserve, s.totalLiquidity);
  }

  // ----- what every step keeps -----

  function Product(s: State): int {
    s.reserveA * s.reserveB
  }

  function TotalSquared(s: State): int {
    s.totalLiquidity * s.totalLiquidity
  }

  /** The reserves' product per squared share does not fall from s to t. */
  ghost predicate ShareValueKept(s: State, t: State) {
    Product(s) * TotalSquared(t) <= Product(t) * TotalSquared(s)
  }

  lemma SidesGiveValue(a: int, b: int, n: int, a': int, b': int, n': int)
    requires 0 <= a && 0 <= b && 0 <= n' && a * n' <= a' * n && b * n' <= b' * n
    ensures (a * b) * (n' * n') <= (a' * b') * (n * n)
  {
    MulMono(0, a, n');
    MulMono(0, b, n');
    MulMono(a * n', a' * n, b * n');
    MulMono(b * n', b' * n, a' * n);
    assert (a * n') * (b * n') == (a * b) * (n' * n');
    assert (a' * n) * (b' * n) == (a' * b') * (n * n);
  }

  lemma SideKept(a: int, n: int, da: int, dn: int)
    requires dn * a <= da * n
    ensures a * (n + dn) <= (a + da) * n
  {
  }

  lemma ProductOfSides(s: State, token: Token)
    ensures Product(s) == ReserveIn(s, token) * ReserveOut(s, token)
  {
  }

  lemma SwapProducts(rIn: int, rOut: int, a: int, o: int)
    requires 0 <= rIn && 0 <= rOut && 0 < a && SwapOutput(rIn, rOut, a) == Ok(o)
    ensures rIn * rOut <= (rIn + a) * (rOut - o)
    ensures 0 < rIn && 0 < rOut ==> rIn * rOut < (rIn + a) * (rOut - o)
    ensures rIn == 0 || rOut == 0 ==> (rIn + a) * (rOut - o) == 0
  {
    SwapOutputMeaning(rIn, rOut, a, o);
    SwapGrowsProduct(rIn, rOut, a, rOut - o);
  }

  lemma SwapEffect(s: State, timestamp: nat, user: Address, token: Token, amountIn: int,
                   minOut: int, t: State, out: int)
    requires Inv(s) && SwapSpec(s, timestamp, user, token, amountIn, minOut) == Ok((t, out))
    ensures ReserveIn(t, token) == ReserveIn(s, token) + amountIn
    ensures ReserveOut(t, token) == ReserveOut(s, token) - out && 0 <= ReserveOut(t, token)
    ensures Product(s) <= Product(t)
    ensures 0 < ReserveIn(s, token) && 0 < ReserveOut(s, token) ==> Product(s) < Product(t)
    ensures ReserveIn(s, token) == 0 || ReserveOut(s, token) == 0 ==> Product(t) == 0
  {
    ProductOfSides(s, token);
    ProductOfSides(t, token);
    SwapProducts(ReserveIn(s, token), ReserveOut(s, token), amountIn, out);
  }

  lemma LaterProvisionKeepsValue(s: State, provider: Address, aDesired: int, bDesired: int,
                                 aMin: int, bMin: int, t: State, minted: int)
    requires Inv(s) && 0 < s.totalLiquidity
    requires AddLiquiditySpec(s, provider, aDesired, bDesired, aMin, bMin) == Ok((t, minted))
    ensures ShareValueKept(s, t)
  {
    LaterProvisionMeaning(s, provider, aDesired, bDesired, aMin, bMin, t, minted);
    var total := s.totalLiquidity;
    SideKept(s.reserveA, total, t.reserveA - s.reserveA, minted);
    SideKept(s.reserveB, total, t.reserveB - s.reserveB, minted);
    SidesGiveValue(s.reserveA, s.reserveB, total, t.reserveA, t.reserveB, total + minted);
  }

  lemma RemovalKeepsValue(s: State, provider: Address, liquidity: int, t: State, a: int, b: int)
    requires Inv(s) && RemoveLiquiditySpec(s, provider, liquidity) == Ok((t, (a, b)))
    ensures ShareValueKept(s, t)
  {
    RemovalMeaning(s, provider, liquidity, t, a, b);
    var total := s.totalLiquidity;
    assert -liquidity * s.reserveA <= -a * total && -liquidity * s.reserveB <= -b * total;
    SideKept(s.reserveA, total, -a, -liquidity);
    SideKept(s.reserveB, total, -b, -liquidity);
    SidesGiveValue(s.reserveA, s.reserveB, total, t.reserveA, t.reserveB, total - liquidity);
  }

  /** While shares are outstanding, no call lowers the product per squared share. */
  lemma StepKeepsShareValue(s: State, c: Call)
    requires Inv(s) && 0 < s.totalLiquidity
    ensures ShareValueKept(s, Step(s, c))
  {
    if Step(s, c) != s {
      match c
      case AddLiquidity(provider, aDesired, bDesired, aMin, bMin) =>
        var r := AddLiquiditySpec(s, provider, aDesired, bDesired, aMin, bMin).value;
        LaterProvisionKeepsValue(s, provider, aDesired, bDesired, aMin, bMin, r.0, r.1);
      case RemoveLiquidity(provider, liquidity) =>
        var r := RemoveLiquiditySpec(s, provider, liquidity).value;
        RemovalKeepsValue(s, provider, liquidity, r.0, r.1.0, r.1.1);
      case Swap(timestamp, user, token, amountIn, minOut) =>
        var r := SwapSpec(s, timestamp, user, token, amountIn, minOut).value;
        SwapKeepsValue(s, timestamp, user, token, amountIn, minOut, r.0, r.1);
    }
  }

  lemma SwapKeepsValue(s: State, timestamp: nat, user: Address, token: Token, amountIn: int,
                       minOut: int, t: State, out: int)
    requires Inv(s) && SwapSpec(s, timestamp, user, token, amountIn, minOut) == Ok((t, out))
    ensures ShareValueKept(s, t)
  {
    SwapEffect(s, timestamp, user, token, amountIn, minOut, t, out);
    SquareSign(s.totalLiquidity);
    MulMono(Product(s), Product(t), TotalSquared(s));
  }

  /** From a backed state, kept value means the new shares are backed too. */
  lemma ValueKeptMeansBacked(s: State, t: State)
    requires 0 < s.totalLiquidity && TotalSquared(s) <= Product(s) && ShareValueKept(s, t)
    ensures TotalSquared(t) <= Product(t)
  {
    SquareSign(s.totalLiquidity);
    SquareSign(t.totalLiquidity);
    MulMono(TotalSquared(s), Product(s), TotalSquared(t));
    MulCancel(TotalSquared(t), Product(t), TotalSquared(s));
  }

  function Abs(x: int): nat {
    if x < 0 then -x else x
  }

  /** The provisions that break the invariant: first ones of negative amounts, which
      nothing refuses as long as their minima are negative enough, their product has
      a root above the minimum and is small enough to take the root of. */
  predicate AcceptedNegativeProvision(s: State, c: Call) {
    && c.AddLiquidity? && s.totalLiquidity == 0
    && c.aMin <= c.aDesired < 0 && c.bMin <= c.bDesired < 0
    && (MINIMUM_LIQUIDITY + 1) * (MINIMUM_LIQUIDITY + 1) <= c.aDesired * c.bDesired <= I128_MAX / 2
  }

  /** When a first provision succeeds: its amounts have one sign, a product that
      fits, a root above the minimum, and the reserves have room. */
  lemma FirstProvisionSucceedsExactly(s: State, provider: Address, aDesired: int, bDesired: int, aMin: int, bMin: int)
    requires Inv(s) && s.totalLiquidity == 0
    ensures AddLiquiditySpec(s, provider, aDesired, bDesired, aMin, bMin).Ok?
       <==> && aMin <= aDesired && bMin <= bDesired
            && (MINIMUM_LIQUIDITY + 1) * (MINIMUM_LIQUIDITY + 1) <= aDesired * bDesired <= I128_MAX / 2
            && s.reserveA + aDesired <= I128_MAX && s.reserveB + bDesired <= I128_MAX
  {
    EntryAtMostSum(s.positions, provider);
    FirstSharesExactly(s, aDesired, bDesired);
    if 0 < aDesired * bDesired <= I128_MAX / 2 {
      FactorsFit(aDesired, bDesired);
      FactorsFit(bDesired, aDesired);
    }
  }

  lemma FirstSharesExactly(s: State, a: int, b: int)
    requires s.totalLiquidity == 0
    ensures var m := SharesMinted(s, a, b);
      && (m.Ok? && 0 < m.value <==> (MINIMUM_LIQUIDITY + 1) * (MINIMUM_LIQUIDITY + 1) <= a * b <= I128_MAX / 2)
      && (m.Ok? ==> m.value <= I128_MAX)
  {
    var least := MINIMUM_LIQUIDITY + 1;
    if 2 <= a * b <= I128_MAX / 2 {
      NewtonStart(a * b);
      if least * least <= a * b {
        RootAtLeast(a * b, least);
      } else {
        RootAtMost(a * b, MINIMUM_LIQUIDITY);
      }
    }
  }

  lemma FactorsFit(x: int, y: int)
    requires 0 < x * y
    ensures -(x * y) <= x <= x * y
  {
    SameSign(x, y);
    if 0 < x {
      MulMono(1, y, x);
    } else {
      MulMono(1, -y, -x);
    }
  }

  /** Exactly the first provisions of negative amounts that are accepted break the
      invariant; every other call keeps it. */
  lemma StepKeepsInvExactly(s: State, c: Call)
    requires Inv(s)
    ensures Inv(Step(s, c)) <==> !AcceptedNegativeProvision(s, c)
  {
    match c
    case AddLiquidity(_, _, _, _, _) => ProvisionStepKeepsInvExactly(s, c);
    case RemoveLiquidity(provider, liquidity) =>
      var r := RemoveLiquiditySpec(s, provider, liquidity);
      if r.Ok? {
        RemovalKeepsInv(s, provider, liquidity, r.value.0, r.value.1.0, r.value.1.1);
      }
    case Swap(timestamp, user, token, amountIn, minOut) =>
      var r := SwapSpec(s, timestamp, user, token, amountIn, minOut);
      if r.Ok? {
        SwapKeepsInv(s, timestamp, user, token, amountIn, minOut, r.value.0, r.value.1);
      }
  }

  lemma ProvisionStepKeepsInvExactly(s: State, c: Call)
    requires Inv(s) && c.AddLiquidity?
    ensures Inv(Step(s, c)) <==> !AcceptedNegativeProvision(s, c)
  {
    var r := AddLiquiditySpec(s, c.provider, c.aDesired, c.bDesired, c.aMin, c.bMin);
    AcceptedNegativeExactly(s, c);
    if r.Ok? {
      ProvisionKeepsInvExactly(s, c.provider, c.aDesired, c.bDesired, c.aMin, c.bMin, r.value.0, r.value.1);
    }
  }

  lemma AcceptedNegativeExactly(s: State, c: Call)
    requires Inv(s) && c.AddLiquidity?
    ensures AcceptedNegativeProvision(s, c)
       <==> && AddLiquiditySpec(s, c.provider, c.aDesired, c.bDesired, c.aMin, c.bMin).Ok?
            && s.totalLiquidity == 0 && c.aDesired <= 0
  {
    if s.totalLiquidity == 0 {
      FirstProvisionSucceedsExactly(s, c.provider, c.aDesired, c.bDesired, c.aMin, c.bMin);
      if 0 < c.aDesired * c.bDesired {
        SameSign(c.aDesired, c.bDesired);
      }
    }
  }

  lemma SwapKeepsInv(s: State, timestamp: nat, user: Address, token: Token, amountIn: int,
                     minOut: int, t: State, out: int)
    requires Inv(s) && SwapSpec(s, timestamp, user, token, amountIn, minOut) == Ok((t, out))
    ensures Inv(t)
  {
    SwapEffect(s, timestamp, user, token, amountIn, minOut, t, out);
    if s.totalLiquidity == 0 {
      OneReserveIsEmpty(s);
    }
  }

  lemma ProvisionKeepsInvExactly(s: State, provider: Address, aDesired: int, bDesired: int,
                                 aMin: int, bMin: int, t: State, minted: int)
    requires Inv(s)
    requires AddLiquiditySpec(s, provider, aDesired, bDesired, aMin, bMin) == Ok((t, minted))
    ensures Inv(t) <==> (0 < s.totalLiquidity || 0 < aDesired)
  {
    SumUpdate(s.positions, provider, Get(s.positions, provider) + minted);
    EntryAtMostSum(s.positions, provider);
    if 0 < s.totalLiquidity {
      LaterProvisionMeaning(s, provider, aDesired, bDesired, aMin, bMin, t, minted);
      LaterProvisionKeepsValue(s, provider, aDesired, bDesired, aMin, bMin, t, minted);
      ValueKeptMeansBacked(s, t);
    } else {
      FirstProvisionMeaning(s, provider, aDesired, bDesired, aMin, bMin, t, minted);
      if 0 < aDesired {
        MulMono(aDesired, t.reserveA, bDesired);
        MulMono(bDesired, t.reserveB, t.reserveA);
      } else {
        OneReserveIsEmpty(s);
      }
    }
  }

  lemma OneReserveIsEmpty(s: State)
    requires Inv(s) && s.totalLiquidity == 0
    ensures s.reserveA == 0 || s.reserveB == 0
  {
    if 0 < s.reserveA && 0 < s.reserveB {
      MulMono(1, s.reserveA, s.reserveB);
    }
  }

  lemma RemovalKeepsInv(s: State, provider: Address, liquidity: int, t: State, a: int, b: int)
    requires Inv(s) && RemoveLiquiditySpec(s, provider, liquidity) == Ok((t, (a, b)))
    ensures Inv(t)
  {
    RemovalMeaning(s, provider, liquidity, t, a, b);
    RemovalKeepsValue(s, provider, liquidity, t, a, b);
    ValueKeptMeansBacked(s, t);
    SumUpdate(s.positions, provider, Get(s.positions, provider) - liquidity);
  }

  // ----- whole runs -----

  /** No call of the run is an accepted first provision of negative amounts. */
  ghost predicate Sound(s: State, calls: seq<Call>) {
    forall k :: 0 <= k < |calls| ==> !AcceptedNegativeProvision(Run(s, calls[..k]), calls[k])
  }

  /** Shares stay outstanding through the run. */
  ghost predicate Inhabited(s: State, calls: seq<Call>) {
    forall k :: 0 <= k <= |calls| ==> 0 < Run(s, calls[..k]).totalLiquidity
  }

  /** In every state a sound run reaches, total shares are backed: T * T <= A * B,
      the reserves are non-negative, and the positions add up to T. */
  lemma {:induction false} RunKeepsInv(s: State, calls: seq<Call>)
    requires Inv(s) && Sound(s, calls)
    ensures Inv(Run(s, calls))
    decreases |calls|
  {
    if calls != [] {
      var n := |calls| - 1;
      PrefixesOfPrefix(calls);
      RunKeepsInv(s, calls[..n]);
      StepKeepsInvExactly(Run(s, calls[..n]), calls[n]);
    }
  }

  lemma ReachableStatesAreBacked(calls: seq<Call>)
    requires Sound(INITIAL, calls)
    ensures Inv(Run(INITIAL, calls))
  {
    RunKeepsInv(INITIAL, calls);
  }

  /** Over any run that keeps shares outstanding, the product per squared share
      never falls: A' * B' / T'^2 >= A * B / T^2. */
  lemma {:induction false} RunKeepsShareValue(s: State, calls: seq<Call>)
    requires Inv(s) && Inhabited(s, calls)
    ensures Inv(Run(s, calls)) && ShareValueKept(s, Run(s, calls))
    decreases |calls|
  {
    if calls != [] {
      var n := |calls| - 1;
      PrefixesOfPrefix(calls);
      RunKeepsShareValue(s, calls[..n]);
      var m := Run(s, calls[..n]);
      assert calls[..n + 1] == calls;
      assert 0 < m.totalLiquidity;
      StepKeepsInvExactly(m, calls[n]);
      StepKeepsShareValue(m, calls[n]);
      ShareValueTransitive(s, m, Step(m, calls[n]));
    }
  }

  lemma ShareValueTransitive(s: State, m: State, t: State)
    requires ShareValueKept(s, m) && ShareValueKept(m, t) && m.totalLiquidity != 0
    ensures ShareValueKept(s, t)
  {
    var x, y, z := TotalSquared(s), TotalSquared(m), TotalSquared(t);
    assert 0 <= x && 0 < y && 0 <= z by {
      SquareSign(s.totalLiquidity);
      SquareSign(m.totalLiquidity);
      SquareSign(t.totalLiquidity);
    }
    MulMono(Product(s) * y, Product(m) * x, z);
    MulMono(Product(m) * z, Product(t) * y, x);
    assert (Product(s) * z) * y == (Product(s) * y) * z;
    assert (Product(t) * x) * y == (Product(t) * y) * x;
    assert (Product(m) * x) * z == (Product(m) * z) * x;
    MulCancel(Product(s) * z, Product(t) * x, y);
  }

  lemma SquareSign(x: int)
    ensures 0 <= x * x && (x != 0 ==> 0 < x * x)
  {
    MulMono(0, Abs(x), Abs(x));
    if x != 0 {
      MulMono(1, Abs(x), Abs(x));
    }
  }

  /** The bound on first provisions is needed: the code accepts this one, mints
      shares for it and leaves both reserves negative. */
  lemma NegativeProvisionIsAccepted(provider: Address)
    ensures var c := AddLiquidity(provider, -2000, -2000, -2000, -2000);
      var t := Step(INITIAL, c);
      t.totalLiquidity == 1000 && t.reserveA == t.reserveB == -2000 && !Inv(t)
  {
    RootOfFourMillion();
    assert SharesMinted(INITIAL, -2000, -2000) == Ok(1000);
  }

  // ----- no gain -----

  /** The run only swaps positive amounts of one token. */
  ghost predicate OneWaySwaps(calls: seq<Call>, token: Token) {
    forall k :: 0 <= k < |calls| ==> calls[k].Swap? && calls[k].token == token && 0 < calls[k].amountIn
  }

  function TotalIn(calls: seq<Call>): int {
    if calls == [] then 0
    else
      var last := calls[|calls| - 1];
      TotalIn(calls[..|calls| - 1]) + (if last.Swap? then last.amountIn else 0)
  }

  /** Two successive net products combine: part of the fee of the first input
      stays in the pool, which only helps the pool. */
  lemma NetProductsCompose(rIn: int, rOut: int, u: int, r: int, a: int, r': int)
    requires 0 <= u && 0 <= a && 0 <= r' <= r
    requires (1000 * rIn) * rOut <= (1000 * rIn + 997 * u) * r
    requires (1000 * (rIn + u)) * r <= (1000 * (rIn + u) + 997 * a) * r'
    ensures (1000 * rIn) * rOut <= (1000 * rIn + 997 * (u + a)) * r'
  {
    var d, e, x := 1000 * rIn + 997 * u, 1000 * (rIn + u), 997 * a;
    MulMono(d, e, r - r');
    assert e * (r - r') == e * r - e * r' && (e + x) * r' == e * r' + x * r';
    assert d * r == d * (r - r') + d * r' && (d + x) * r' == d * r' + x * r';
  }

  /** From s to t, taking in u and paying out the rest keeps the net product. */
  ghost predicate NetProductKept(s: State, t: State, token: Token) {
    && Inv(t) && ReserveIn(s, token) <= ReserveIn(t, token)
    && KeepsNetProduct(ReserveIn(s, token), ReserveOut(s, token),
                       ReserveIn(t, token) - ReserveIn(s, token), ReserveOut(s, token) - ReserveOut(t, token))
  }

  lemma SwapAfterKeepsNetProduct(s: State, m: State, c: Call)
    requires Inv(s) && Inv(m) && c.Swap? && 0 < c.amountIn && NetProductKept(s, m, c.token)
    ensures NetProductKept(s, Step(m, c), c.token)
    ensures ReserveIn(Step(m, c), c.token) <= ReserveIn(m, c.token) + c.amountIn
  {
    var token := c.token;
    var r := SwapSpec(m, c.timestamp, c.user, token, c.amountIn, c.minOut);
    if r.Ok? {
      var (t, out) := r.value;
      SwapKeepsInv(m, c.timestamp, c.user, token, c.amountIn, c.minOut, t, out);
      SwapOutputMeaning(ReserveIn(m, token), ReserveOut(m, token), c.amountIn, out);
      NetProductsCompose(ReserveIn(s, token), ReserveOut(s, token), ReserveIn(m, token) - ReserveIn(s, token),
                         ReserveOut(m, token), c.amountIn, ReserveOut(t, token));
    }
  }

  /** Whatever a one-way run of swaps pays out, the net product of all it took in
      is kept. */
  lemma {:induction false} OneWayRunKeepsNetProduct(s: State, calls: seq<Call>, token: Token)
    requires Inv(s) && OneWaySwaps(calls, token)
    ensures NetProductKept(s, Run(s, calls), token)
    ensures ReserveIn(Run(s, calls), token) <= ReserveIn(s, token) + TotalIn(calls)
    decreases |calls|
  {
    if calls != [] {
      var n := |calls| - 1;
      OneWayRunKeepsNetProduct(s, calls[..n], token);
      SwapAfterKeepsNetProduct(s, Run(s, calls[..n]), calls[n]);
    }
  }

  lemma MoreInputKeepsNetProduct(rIn: int, rOut: int, u: int, a: int, p: int)
    requires u <= a && p <= rOut && KeepsNetProduct(rIn, rOut, u, p)
    ensures KeepsNetProduct(rIn, rOut, a, p)
  {
    MulMono(1000 * rIn + 997 * u, 1000 * rIn + 997 * a, rOut - p);
  }

  lemma OneWayRunPaysForTotal(s: State, calls: seq<Call>, token: Token)
    requires Inv(s) && OneWaySwaps(calls, token)
    ensures KeepsNetProduct(ReserveIn(s, token), ReserveOut(s, token), TotalIn(calls),
                            ReserveOut(s, token) - ReserveOut(Run(s, calls), token))
  {
    OneWayRunKeepsNetProduct(s, calls, token);
    var t := Run(s, calls);
    var rIn, rOut := ReserveIn(s, token), ReserveOut(s, token);
    MoreInputKeepsNetProduct(rIn, rOut, ReserveIn(t, token) - rIn, TotalIn(calls), rOut - ReserveOut(t, token));
  }

  /** Cutting a trade into any number of swaps never pays out more than one swap of
      the whole amount from the same state. */
  lemma SplittingNeverPays(s: State, calls: seq<Call>, token: Token, timestamp: nat, user: Address,
                           minOut: int, whole: State, out: int)
    requires Inv(s) && OneWaySwaps(calls, token)
    requires SwapSpec(s, timestamp, user, token, TotalIn(calls), minOut) == Ok((whole, out))
    ensures ReserveOut(s, token) - ReserveOut(Run(s, calls), token) <= out
  {
    OneWayRunPaysForTotal(s, calls, token);
    SwapOutputMeaning(ReserveIn(s, token), ReserveOut(s, token), TotalIn(calls), out);
  }

  /** Swapping in and swapping the whole output back never gains, and strictly
      loses exactly when the input side of the pool was not empty. */
  lemma SwapRoundTripNeverGains(s: State, user: Address, token: Token, amountIn: int,
                                time1: nat, min1: int, t: State, out: int,
                                time2: nat, min2: int, v: State, back: int)
    requires Inv(s)
    requires SwapSpec(s, time1, user, token, amountIn, min1) == Ok((t, out))
    requires SwapSpec(t, time2, user, Opposite(token), out, min2) == Ok((v, back))
    ensures back <= amountIn
    ensures back < amountIn <==> 0 < ReserveIn(s, token)
  {
    SwapKeepsInv(s, time1, user, token, amountIn, min1, t, out);
    var rIn, rOut := ReserveIn(s, token), ReserveOut(s, token);
    SwapOutputMeaning(rIn, rOut, amountIn, out);
    SwapEffect(s, time1, user, token, amountIn, min1, t, out);
    if 0 < rIn {
      SwapEffect(t, time2, user, Opposite(token), out, min2, v, back);
      ProductOfSides(s, token);
      ProductOfSides(v, token);
      if amountIn <= back {
        MulMono(rIn + amountIn - back, rIn, rOut);
      }
    } else {
      SwapOutputMeaning(0, amountIn, out, back);
    }
  }

  /** However swaps in both directions are mixed, the traders together never take
      one token out of a backed pool without leaving some of the other: the product
      does not fall, and no side ends lower unless the other ends higher. */
  lemma {:induction false} TradingNeverDrains(s: State, calls: seq<Call>)
    requires Inv(s) && 0 < s.totalLiquidity && forall k :: 0 <= k < |calls| ==> calls[k].Swap?
    ensures var t := Run(s, calls);
      && Inv(t) && t.totalLiquidity == s.totalLiquidity && Product(s) <= Product(t)
      && (t.reserveA < s.reserveA ==> s.reserveB < t.reserveB)
      && (t.reserveB < s.reserveB ==> s.reserveA < t.reserveA)
    decreases |calls|
  {
    if calls != [] {
      var n := |calls| - 1;
      TradingNeverDrains(s, calls[..n]);
      SwapStepGrowsProduct(Run(s, calls[..n]), calls[n]);
    }
    SharesAreBacked(s);
    LowerSideNeedsHigher(s.reserveA, s.reserveB, Run(s, calls).reserveA, Run(s, calls).reserveB);
  }

  lemma SwapStepGrowsProduct(s: State, c: Call)
    requires Inv(s) && c.Swap?
    ensures Inv(Step(s, c)) && Step(s, c).totalLiquidity == s.totalLiquidity && Product(s) <= Product(Step(s, c))
  {
    var r := SwapSpec(s, c.timestamp, c.user, c.token, c.amountIn, c.minOut);
    if r.Ok? {
      SwapKeepsInv(s, c.timestamp, c.user, c.token, c.amountIn, c.minOut, r.value.0, r.value.1);
      SwapEffect(s, c.timestamp, c.user, c.token, c.amountIn, c.minOut, r.value.0, r.value.1);
    }
  }

  lemma LowerSideNeedsHigher(a: int, b: int, a': int, b': int)
    requires 0 < a && 0 < b && 0 <= a' && 0 <= b' && a * b <= a' * b'
    ensures a' < a ==> b < b'
    ensures b' < b ==> a < a'
  {
    if a' < a && b' <= b {
      MulMono(b', b, a');
      MulMono(a', a - 1, b);
    }
    if b' < b && a' <= a {
      MulMono(a', a, b');
      MulMono(b', b - 1, a);
    }
  }

  lemma ProportionalPartAtMost(a: int, n: int, da: int, m: int, back: int)
    requires 0 <= n && 0 < m && m * a <= da * n && back * (n + m) <= m * (a + da)
    ensures back <= da
  {
    assert m * (a + da) == m * a + da * m;
    assert da * (n + m) == da * n + da * m;
    MulCancel(back, da, n + m);
  }

  /** Depositing and then redeeming exactly the minted shares returns at most the
      deposit of a token if and only if shares were outstanding before, or nothing
      of that token had been left in the pool. */
  lemma ProvideThenRedeemNeverGains(s: State, provider: Address, aDesired: int, bDesired: int,
                                    aMin: int, bMin: int, t: State, minted: int,
                                    v: State, backA: int, backB: int)
    requires Inv(s)
    requires AddLiquiditySpec(s, provider, aDesired, bDesired, aMin, bMin) == Ok((t, minted))
    requires RemoveLiquiditySpec(t, provider, minted) == Ok((v, (backA, backB)))
    ensures backA <= t.reserveA - s.reserveA <==> 0 < s.totalLiquidity || s.reserveA == 0
    ensures backB <= t.reserveB - s.reserveB <==> 0 < s.totalLiquidity || s.reserveB == 0
  {
    if 0 < s.totalLiquidity {
      RedeemLaterProvision(s, provider, aDesired, bDesired, aMin, bMin, t, minted, v, backA, backB);
    } else {
      RedeemFirstProvision(s, provider, aDesired, bDesired, aMin, bMin, t, minted, v, backA, backB);
    }
  }

  lemma RedeemLaterProvision(s: State, provider: Address, aDesired: int, bDesired: int,
                             aMin: int, bMin: int, t: State, minted: int, v: State, backA: int, backB: int)
    requires Inv(s) && 0 < s.totalLiquidity
    requires AddLiquiditySpec(s, provider, aDesired, bDesired, aMin, bMin) == Ok((t, minted))
    requires RemoveLiquiditySpec(t, provider, minted) == Ok((v, (backA, backB)))
    ensures backA <= t.reserveA - s.reserveA && backB <= t.reserveB - s.reserveB
  {
    ProvisionKeepsInvExactly(s, provider, aDesired, bDesired, aMin, bMin, t, minted);
    LaterProvisionMeaning(s, provider, aDesired, bDesired, aMin, bMin, t, minted);
    RemovalMeaning(t, provider, minted, v, backA, backB);
    ProportionalPartAtMost(s.reserveA, s.totalLiquidity, t.reserveA - s.reserveA, minted, backA);
    ProportionalPartAtMost(s.reserveB, s.totalLiquidity, t.reserveB - s.reserveB, minted, backB);
  }

  lemma RedeemFirstProvision(s: State, provider: Address, aDesired: int, bDesired: int,
                             aMin: int, bMin: int, t: State, minted: int, v: State, backA: int, backB: int)
    requires Inv(s) && s.totalLiquidity == 0
    requires AddLiquiditySpec(s, provider, aDesired, bDesired, aMin, bMin) == Ok((t, minted))
    requires RemoveLiquiditySpec(t, provider, minted) == Ok((v, (backA, backB)))
    ensures backA == t.reserveA && backB == t.reserveB
  {
    FirstProvisionMeaning(s, provider, aDesired, bDesired, aMin, bMin, t, minted);
    if aDesired <= 0 {
      NegativeProvisionIsStuck(s, t, provider, minted);
    }
    ProvisionKeepsInvExactly(s, provider, aDesired, bDesired, aMin, bMin, t, minted);
    RemovalMeaning(t, provider, minted, v, backA, backB);
  }

  /** Shares minted for negative amounts cannot be redeemed in full. */
  lemma NegativeProvisionIsStuck(s: State, t: State, provider: Address, minted: int)
    requires Inv(s) && s.totalLiquidity == 0
    requires t.reserveA < s.reserveA && t.reserveB < s.reserveB && t.totalLiquidity == minted && 0 < minted
    ensures RemoveLiquiditySpec(t, provider, minted).Panic?
  {
    OneReserveIsEmpty(s);
    if t.reserveA <= 0 {
      MulMono(t.reserveA, 0, minted);
      TruncDivSign(minted * t.reserveA, minted);
    } else {
      MulMono(t.reserveB, 0, minted);
      TruncDivSign(minted * t.reserveB, minted);
    }
  }

  /** The condition is needed: tokens swapped into a pool without shares go to the
      next provider, who redeems 7000 after depositing 2000. */
  lemma LeftoversGoToTheNextProvider(provider: Address)
    ensures var donated := Step(INITIAL, Swap(0, provider, Bst, 5000, 0));
      var provided := Step(donated, AddLiquidity(provider, 2000, 2000, 0, 0));
      var redeemed := Step(provided, RemoveLiquidity(provider, 1000));
      && provided.reserveA - donated.reserveA == 2000
      && provided.reserveA - redeemed.reserveA == 7000
  {
    var donated := Step(INITIAL, Swap(0, provider, Bst, 5000, 0));
    assert SwapOutput(0, 0, 5000) == Ok(0);
    assert donated.reserveA == 5000 && donated.reserveB == 0 && donated.positions == map[];
    RootOfFourMillion();
    assert SharesMinted(donated, 2000, 2000) == Ok(1000);
    var provided := Step(donated, AddLiquidity(provider, 2000, 2000, 0, 0));
    assert provided.reserveA == 7000 && provided.reserveB == 2000 && provided.totalLiquidity == 1000;
    assert Get(provided.positions, provider) == 1000;
  }

  lemma RootOfFourMillion()
    ensures SqrtSpec(4_000_000) == Ok(2000)
  {
    FloorSqrtUnique(4_000_000, 2000);
  }

  // ----- the swap history -----

  /** What the recorded swaps moved into (positive) or out of a token's reserve. */
  function HistoryFlow(history: seq<SwapRecord>, token: Token): int {
    if history == [] then 0
    else
      var last := history[|history| - 1];
      HistoryFlow(history[..|history| - 1], token)
      + (if last.tokenIn == token then last.amountIn else 0)
      - (if last.tokenOut == token then last.amountOut else 0)
  }

  /** What the provisions and removals of a run moved into or out of a reserve. */
  function LiquidityFlow(s: State, calls: seq<Call>, token: Token): int {
    if calls == [] then 0
    else
      var n := |calls| - 1;
      var m := Run(s, calls[..n]);
      LiquidityFlow(s, calls[..n], token)
      + (if calls[n].Swap? then 0 else ReserveIn(Step(m, calls[n]), token) - ReserveIn(m, token))
  }

  ghost predicate Accountable(r: SwapRecord) {
    && 0 < r.amountIn && !r.tokenIn.OtherSymbol? && r.tokenOut == Opposite(r.tokenIn)
    && 1000 * r.fee <= 3 * r.amountIn < 1000 * (r.fee + 1)
  }

  lemma StepExtendsHistory(s: State, c: Call)
    ensures !c.Swap? || Step(s, c) == s ==> Step(s, c).history == s.history
    ensures c.Swap? && Step(s, c) != s ==>
      && |Step(s, c).history| == |s.history| + 1 && Step(s, c).history[..|s.history|] == s.history
      && var last := Step(s, c).history[|s.history|];
        && Accountable(last) && last.user == c.user && last.timestamp == c.timestamp
        && c.minOut <= last.amountOut
        && ReserveIn(Step(s, c), last.tokenIn) == ReserveIn(s, last.tokenIn) + last.amountIn
        && ReserveIn(Step(s, c), last.tokenOut) == ReserveIn(s, last.tokenOut) - last.amountOut
  {
    if c.Swap? && Step(s, c) != s {
      TruncDivIsFloor(c.amountIn * FEE_NUMERATOR, FEE_DENOMINATOR);
    }
  }

  ghost predicate AllAccountable(history: seq<SwapRecord>) {
    forall k :: 0 <= k < |history| ==> Accountable(history[k])
  }

  lemma StepOnFlow(s: State, c: Call, token: Token)
    requires !token.OtherSymbol? && AllAccountable(s.history)
    ensures var t := Step(s, c);
      && AllAccountable(t.history)
      && HistoryFlow(t.history, token) == HistoryFlow(s.history, token)
           + (if c.Swap? then ReserveIn(t, token) - ReserveIn(s, token) else 0)
  {
    StepExtendsHistory(s, c);
  }

  /** The history is a full account of the swaps: with the liquidity moved in and
      out, it explains both reserves in every reachable state. */
  lemma {:induction false} HistoryExplainsReserves(calls: seq<Call>, token: Token)
    requires !token.OtherSymbol?
    ensures var s := Run(INITIAL, calls);
      && AllAccountable(s.history)
      && ReserveIn(s, token) == HistoryFlow(s.history, token) + LiquidityFlow(INITIAL, calls, token)
    decreases |calls|
  {
    if calls != [] {
      var n := |calls| - 1;
      HistoryExplainsReserves(calls[..n], token);
      StepOnFlow(Run(INITIAL, calls[..n]), calls[n], token);
    }
  }

  // ----- exactly when a swap succeeds -----

  lemma SmallerPayoutKeepsNetProduct(rIn: int, rOut: int, a: int, p: int, o: int)
    requires 0 <= rIn && 0 <= a && p <= o && KeepsNetProduct(rIn, rOut, a, o)
    ensures KeepsNetProduct(rIn, rOut, a, p)
  {
    MulMono(rOut - o, rOut - p, 1000 * rIn + 997 * a);
  }

  lemma SwapOutputFits(rIn: int, rOut: int, a: int)
    requires 0 <= rIn && 0 <= rOut <= I128_MAX && 0 < a
    ensures SwapOutput(rIn, rOut, a).Ok? <==> (997 * a) * rOut <= I128_MAX && 1000 * rIn + 997 * a <= I128_MAX
  {
    MulMono(0, rOut, 997 * a);
    if (997 * a) * rOut <= I128_MAX && 1000 * rIn + 997 * a <= I128_MAX {
      TruncDivIsFloor((997 * a) * rOut, 1000 * rIn + 997 * a);
    }
  }

  /** A swap goes through exactly when its amount is positive, its token known, its
      arithmetic fits and the demanded minimum keeps the net product: neither the
      division nor the reserve check is ever what fails. */
  lemma SwapSucceedsExactly(s: State, timestamp: nat, user: Address, token: Token, amountIn: int, minOut: int)
    requires Inv(s)
    ensures var rIn, rOut := ReserveIn(s, token), ReserveOut(s, token);
      SwapSpec(s, timestamp, user, token, amountIn, minOut).Ok?
      <==> && 0 < amountIn && !token.OtherSymbol? && |s.history| < U32_MAX
           && (997 * amountIn) * rOut <= I128_MAX && 1000 * rIn + 997 * amountIn <= I128_MAX
           && KeepsNetProduct(rIn, rOut, amountIn, minOut)
  {
    var rIn, rOut := ReserveIn(s, token), ReserveOut(s, token);
    if 0 < amountIn {
      SwapOutputFits(rIn, rOut, amountIn);
      var r := SwapOutput(rIn, rOut, amountIn);
      if r.Ok? {
        SwapOutputMeaning(rIn, rOut, amountIn, r.value);
        if minOut <= r.value {
          SmallerPayoutKeepsNetProduct(rIn, rOut, amountIn, minOut, r.value);
        }
      }
    }
  }

  /** What a swap pays is the largest payout that keeps the net product, and at least
      the minimum; it takes the whole input and touches no shares. */
  lemma SwapMeaning(s: State, timestamp: nat, user: Address, token: Token, amountIn: int, minOut: int,
                    t: State, out: int)
    requires Inv(s) && SwapSpec(s, timestamp, user, token, amountIn, minOut) == Ok((t, out))
    ensures var rIn, rOut := ReserveIn(s, token), ReserveOut(s, token);
      && minOut <= out && KeepsNetProduct(rIn, rOut, amountIn, out)
      && (forall p :: KeepsNetProduct(rIn, rOut, amountIn, p) ==> p <= out)
      && ReserveIn(t, token) == rIn + amountIn && ReserveOut(t, token) == rOut - out
      && t == s.(reserveA := t.reserveA, reserveB := t.reserveB, history := t.history)
  {
    SwapOutputMeaning(ReserveIn(s, token), ReserveOut(s, token), amountIn, out);
  }

  // ----- whose shares they are -----

  /** The shares a provider's own calls minted less those they burned. */
  function OwnShares(s: State, calls: seq<Call>, p: Address): int {
    if calls == [] then 0
    else
      var n := |calls| - 1;
      var m, c := Run(s, calls[..n]), calls[n];
      OwnShares(s, calls[..n], p)
      + (if (c.AddLiquidity? || c.RemoveLiquidity?) && c.provider == p
         then Step(m, c).totalLiquidity - m.totalLiquidity else 0)
  }

  /** Every position is its provider's own, and the locked minimum is set aside with
      the first provision without ever counting as a share. */
  lemma {:induction false} PositionsAreOwnShares(calls: seq<Call>, p: Address)
    ensures var s := Run(INITIAL, calls);
      && Get(s.positions, p) == OwnShares(INITIAL, calls, p)
      && (s.totalLiquidity != 0 ==> s.lockedMinimum == MINIMUM_LIQUIDITY)
    decreases |calls|
  {
    if calls != [] {
      var n := |calls| - 1;
      PositionsAreOwnShares(calls[..n], p);
      StepOnPosition(Run(INITIAL, calls[..n]), calls[n], p);
    }
  }

  lemma StepOnPosition(s: State, c: Call, p: Address)
    ensures var t := Step(s, c);
      && Get(t.positions, p) - Get(s.positions, p)
         == (if (c.AddLiquidity? || c.RemoveLiquidity?) && c.provider == p
             then t.totalLiquidity - s.totalLiquidity else 0)
      && (t == s || t.lockedMinimum == if c.AddLiquidity? && s.totalLiquidity == 0 then MINIMUM_LIQUIDITY
                                       else s.lockedMinimum)
      && (s.totalLiquidity == 0 && !c.AddLiquidity? ==> t.totalLiquidity == 0)
  {
  }
}
