/** The constant-product liquidity pool: its state, what each entry point does to
    it, and the contract object whose methods do it in place. */
module LiquidityPool {
  import opened Common
  import opened SquareRoot

  const MINIMUM_LIQUIDITY: int := 1000
  const FEE_NUMERATOR: int := 3
  const FEE_DENOMINATOR: int := 1000

  datatype Token = Bst | Xlm | OtherSymbol(name: string)

  datatype SwapRecord = SwapRecord(timestamp: nat, user: Address, tokenIn: Token, amountIn: int,
                                   tokenOut: Token, amountOut: int, fee: int)

  /** Persistent user positions and the pool's own instance entry are different
      maps in storage, so the locked minimum is not one of the positions. */
  datatype State = State(reserveA: int, reserveB: int, totalLiquidity: int,
                         positions: map<Address, int>, lockedMinimum: int,
                         history: seq<SwapRecord>)

  const INITIAL: State := State(0, 0, 0, map[], 0, [])

  // ----- pure arithmetic of the entry points -----

  function Quote(amount: int, reserve: int, otherReserve: int): Result<int> {
    if reserve > 0 && otherReserve > 0 then
      var product :- Checked(amount * otherReserve);
      CheckedDiv(product, reserve)
    else Panic
  }

  /** The pair actually deposited: everything for a first provision, afterwards
      one desired amount and the other side cut down to the pool's ratio. */
  function DepositAmounts(s: State, aDesired: int, bDesired: int, aMin: int, bMin: int): Result<(int, int)> {
    if s.totalLiquidity == 0 then Ok((aDesired, bDesired))
    else
      var bOptimal :- Quote(aDesired, s.reserveA, s.reserveB);
      if bOptimal <= bDesired then
        if bOptimal >= bMin then Ok((aDesired, bOptimal)) else Panic
      else
        var aOptimal :- Quote(bDesired, s.reserveB, s.reserveA);
        if aMin <= aOptimal <= aDesired then Ok((aOptimal, bDesired)) else Panic
  }

  function SharesFor(amount: int, total: int, reserve: int): Result<int> {
    var product :- Checked(amount * total);
    CheckedDiv(product, reserve)
  }

  function SharesMinted(s: State, a: int, b: int): Result<int> {
    if s.totalLiquidity == 0 then
      var product :- Checked(a * b);
      var root :- SqrtSpec(product);
      Ok(if root - MINIMUM_LIQUIDITY < I128_MIN then 0 else root - MINIMUM_LIQUIDITY)
    else
      var forA :- SharesFor(a, s.totalLiquidity, s.reserveA);
      var forB :- SharesFor(b, s.totalLiquidity, s.reserveB);
      Ok(if forA < forB then forA else forB)
  }

  function SwapOutput(reserveIn: int, reserveOut: int, amountIn: int): Result<int> {
    var withFee :- Checked(amountIn * (FEE_DENOMINATOR - FEE_NUMERATOR));
    var numerator :- Checked(withFee * reserveOut);
    var scaled :- Checked(reserveIn * FEE_DENOMINATOR);
    var denominator :- Checked(scaled + withFee);
    CheckedDiv(numerator, denominator)
  }

  // ----- the entry points as state transformers -----

  function AddLiquiditySpec(s: State, provider: Address, aDesired: int, bDesired: int,
                            aMin: int, bMin: int): Result<(State, int)>
  {
    var (a, b) :- DepositAmounts(s, aDesired, bDesired, aMin, bMin);
    if a < aMin || b < bMin then Panic
    else
      var minted :- SharesMinted(s, a, b);
      if minted <= 0 then Panic
      else
        var reserveA :- Checked(s.reserveA + a);
        var reserveB :- Checked(s.reserveB + b);
        var total :- Checked(s.totalLiquidity + minted);
        var position :- Checked(Get(s.positions, provider) + minted);
        Ok((s.(reserveA := reserveA, reserveB := reserveB, totalLiquidity := total,
               positions := s.positions[provider := position],
               lockedMinimum := if s.totalLiquidity == 0 then MINIMUM_LIQUIDITY else s.lockedMinimum),
            minted))
  }

  function RemoveLiquiditySpec(s: State, provider: Address, liquidity: int): Result<(State, (int, int))> {
    if Get(s.positions, provider) < liquidity then Panic
    else
      var productA :- Checked(liquidity * s.reserveA);
      var a :- CheckedDiv(productA, s.totalLiquidity);
      var productB :- Checked(liquidity * s.reserveB);
      var b :- CheckedDiv(productB, s.totalLiquidity);
      if a <= 0 || b <= 0 then Panic
      else
        var position :- Checked(Get(s.positions, provider) - liquidity);
        var total :- Checked(s.totalLiquidity - liquidity);
        var reserveA :- Checked(s.reserveA - a);
        var reserveB :- Checked(s.reserveB - b);
        Ok((s.(reserveA := reserveA, reserveB := reserveB, totalLiquidity := total,
               positions := s.positions[provider := position]),
            (a, b)))
  }

  function ReserveIn(s: State, token: Token): int {
    if token == Bst then s.reserveA else s.reserveB
  }

  function ReserveOut(s: State, token: Token): int {
    if token == Bst then s.reserveB else s.reserveA
  }

  function Opposite(token: Token): Token {
    if token == Bst then Xlm else Bst
  }

  function SwapSpec(s: State, timestamp: nat, user: Address, token: Token, amountIn: int,
                    minOut: int): Result<(State, int)>
  {
    if amountIn <= 0 || token.OtherSymbol? then Panic
    else
      var out :- SwapOutput(ReserveIn(s, token), ReserveOut(s, token), amountIn);
      if out < minOut || ReserveOut(s, token) < out then Panic
      else
        var newIn :- Checked(ReserveIn(s, token) + amountIn);
        var newOut :- Checked(ReserveOut(s, token) - out);
        var scaledFee :- Checked(amountIn * FEE_NUMERATOR);
        if U32_MAX <= |s.history| then Panic
        else
          var swap := SwapRecord(timestamp, user, token, amountIn, Opposite(token), out,
                                 TruncDiv(scaledFee, FEE_DENOMINATOR));
          Ok((s.(reserveA := if token == Bst then newIn else newOut,
                 reserveB := if token == Bst then newOut else newIn,
                 history := s.history + [swap]),
              out))
  }

  // ----- the contract object -----

  class LiquidityPoolContract {
    var reserveA: int
    var reserveB: int
    var totalLiquidity: int
    var positions: map<Address, int>
    var lockedMinimum: int
    var history: seq<SwapRecord>

    ghost function View(): State
      reads this
    {
      State(reserveA, reserveB, totalLiquidity, positions, lockedMinimum, history)
    }

    constructor ()
      ensures View() == INITIAL
    {
      reserveA, reserveB, totalLiquidity := 0, 0, 0;
      positions, lockedMinimum, history := map[], 0, [];
    }

    /** The two amounts to deposit, without changing anything. */
    method ChooseAmounts(aDesired: int, bDesired: int, aMin: int, bMin: int) returns (r: Result<(int, int)>)
      ensures r == DepositAmounts(View(), aDesired, bDesired, aMin, bMin)
    {
      if totalLiquidity == 0 {
        return Ok((aDesired, bDesired));
      }
      var bOptimal :- Quote(aDesired, reserveA, reserveB);
      if bOptimal <= bDesired {
        if bOptimal < bMin {
          return Panic;
        }
        return Ok((aDesired, bOptimal));
      }
      var aOptimal :- Quote(bDesired, reserveB, reserveA);
      if aDesired < aOptimal || aOptimal < aMin {
        return Panic;
      }
      return Ok((aOptimal, bDesired));
    }

    /** The shares to mint for a deposit, without changing anything. */
    method ComputeShares(a: int, b: int) returns (r: Result<int>)
      ensures r == SharesMinted(View(), a, b)
    {
      if totalLiquidity == 0 {
        var product :- Checked(a * b);
        var root :- Sqrt(product);
        return Ok(if root - MINIMUM_LIQUIDITY < I128_MIN then 0 else root - MINIMUM_LIQUIDITY);
      }
      var productA :- Checked(a * totalLiquidity);
      var mintedA :- CheckedDiv(productA, reserveA);
      var productB :- Checked(b * totalLiquidity);
      var mintedB :- CheckedDiv(productB, reserveB);
      return Ok(if mintedA < mintedB then mintedA else mintedB);
    }

    method AddLiquidity(provider: Address, aDesired: int, bDesired: int, aMin: int, bMin: int)
      returns (r: Result<int>)
      modifies this
      ensures Refines(AddLiquiditySpec(old(View()), provider, aDesired, bDesired, aMin, bMin),
                      old(View()), View(), r)
    {
      var amounts :- ChooseAmounts(aDesired, bDesired, aMin, bMin);
      var (a, b) := amounts;
      if a < aMin || b < bMin {
        return Panic;
      }
      var minted :- ComputeShares(a, b);
      if minted <= 0 {
        return Panic;
      }
      var newA :- Checked(reserveA + a);
      var newB :- Checked(reserveB + b);
      var newTotal :- Checked(totalLiquidity + minted);
      var position :- Checked(Get(positions, provider) + minted);
      if totalLiquidity == 0 {
        lockedMinimum := MINIMUM_LIQUIDITY;
      }
      reserveA, reserveB := newA, newB;
      totalLiquidity := newTotal;
      positions := positions[provider := position];
      return Ok(minted);
    }

    method RemoveLiquidity(provider: Address, liquidity: int) returns (r: Result<(int, int)>)
      modifies this
      ensures Refines(RemoveLiquiditySpec(old(View()), provider, liquidity), old(View()), View(), r)
    {
      var held := Get(positions, provider);
      if held < liquidity {
        return Panic;
      }
      var productA :- Checked(liquidity * reserveA);
      var a :- CheckedDiv(productA, totalLiquidity);
      var productB :- Checked(liquidity * reserveB);
      var b :- CheckedDiv(productB, totalLiquidity);
      if !(a > 0 && b > 0) {
        return Panic;
      }
      var position :- Checked(held - liquidity);
      var newTotal :- Checked(totalLiquidity - liquidity);
      var newA :- Checked(reserveA - a);
      var newB :- Checked(reserveB - b);
      positions := positions[provider := position];
      totalLiquidity := newTotal;
      reserveA, reserveB := newA, newB;
      return Ok((a, b));
    }

    method Swap(timestamp: nat, user: Address, token: Token, amountIn: int, minOut: int)
      returns (r: Result<int>)
      modifies this
      ensures Refines(SwapSpec(old(View()), timestamp, user, token, amountIn, minOut),
                      old(View()), View(), r)
    {
      if amountIn <= 0 {
        return Panic;
      }
      var reserveIn, reserveOut;
      match token {
        case Bst => reserveIn, reserveOut := reserveA, reserveB;
        case Xlm => reserveIn, reserveOut := reserveB, reserveA;
        case OtherSymbol(_) => return Panic;
      }
      var withFee :- Checked(amountIn * (FEE_DENOMINATOR - FEE_NUMERATOR));
      var numerator :- Checked(withFee * reserveOut);
      var scaled :- Checked(reserveIn * FEE_DENOMINATOR);
      var denominator :- Checked(scaled + withFee);
      var out :- CheckedDiv(numerator, denominator);
      if out < minOut || reserveOut < out {
        return Panic;
      }
      var newIn := Checked(reserveIn + amountIn).Extract();
      var newOut :- Checked(reserveOut - out);
      var scaledFee := Checked(amountIn * FEE_NUMERATOR).Extract();
      if U32_MAX <= |history| {
        return Panic;
      }
      var tokenOut;
      if token == Bst {
        reserveA, reserveB, tokenOut := newIn, newOut, Xlm;
      } else {
        reserveB, reserveA, tokenOut := newIn, newOut, Bst;
      }
      var fee := TruncDiv(scaledFee, FEE_DENOMINATOR);
      history := history + [SwapRecord(timestamp, user, token, amountIn, tokenOut, out, fee)];
      return Ok(out);
    }
  }
}
