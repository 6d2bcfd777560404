/** Shared vocabulary of the contract models: identities, the outcome of a call
    that may abort, and checked machine arithmetic. */
module Common {

  /** An account or contract address: only equality matters. */
  datatype Address = Address(key: nat)

  /** The outcome of a contract call. A failed assertion, a missing record or an
      arithmetic overflow aborts the call and reverts everything it wrote. */
  datatype Result<+T> = Ok(value: T) | Panic {
    predicate IsFailure() {
      Panic?
    }

    function PropagateFailure<U>(): Result<U>
      requires Panic?
    {
      Panic
    }

    function Extract(): T
      requires Ok?
    {
      value
    }
  }

  datatype Option<+T> = None | Some(value: T)

  /** A mutating call behaves as `spec` says: it takes the object from `before`
      to `after` and returns `r`, and an abort leaves the state alone. */
  ghost predicate Refines<S, T>(spec: Result<(S, T)>, before: S, after: S, r: Result<T>) {
    match spec
    case Ok((s, v)) => after == s && r == Ok(v)
    case Panic => after == before && r.Panic?
  }

  /** The state after a call, given what the call would do in state s. */
  function After<S, T>(r: Result<(S, T)>, s: S): S {
    if r.Ok? then r.value.0 else s
  }

  ghost predicate NoDuplicates<T>(s: seq<T>) {
    forall i, j :: 0 <= i < j < |s| ==> s[i] != s[j]
  }

  /** The list without the first occurrence of an element, if there is one. */
  function RemoveFirst<T(==)>(s: seq<T>, x: T): seq<T> {
    if s == [] then []
    else if s[0] == x then s[1..]
    else [s[0]] + RemoveFirst(s[1..], x)
  }

  lemma NoDuplicatesSplit<T>(list: seq<T>)
    requires list != []
    ensures NoDuplicates(list) <==> list[0] !in list[1..] && NoDuplicates(list[1..])
  {
    assert forall i :: 0 < i < |list| ==> list[i] == list[1..][i - 1];
  }

  /** The list without any occurrence of an element. */
  function Except<T(==)>(list: seq<T>, x: T): seq<T> {
    if list == [] then []
    else (if list[0] == x then [] else [list[0]]) + Except(list[1..], x)
  }

  lemma {:induction false} ExceptIsRemoval<T>(list: seq<T>, x: T)
    requires NoDuplicates(list)
    ensures Except(list, x) == RemoveFirst(list, x)
  {
    if list != [] {
      NoDuplicatesSplit(list);
      ExceptIsRemoval(list[1..], x);
      if list[0] == x {
        NothingToRemove(list[1..], x);
      }
    }
  }

  lemma {:induction false} NothingToRemove<T>(list: seq<T>, x: T)
    requires x !in list
    ensures RemoveFirst(list, x) == list
  {
    if list != [] {
      NothingToRemove(list[1..], x);
    }
  }

  lemma PrefixesOfPrefix<T>(s: seq<T>)
    requires s != []
    ensures var front := s[..|s| - 1]; forall k :: 0 <= k < |s| ==> front[..k] == s[..k]
  {
  }

  const U32_MAX: int := 0xFFFF_FFFF
  const U64_MAX: int := 0xFFFF_FFFF_FFFF_FFFF
  const I128_MAX: int := 0x7FFF_FFFF_FFFF_FFFF_FFFF_FFFF_FFFF_FFFF
  const I128_MIN: int := -0x8000_0000_0000_0000_0000_0000_0000_0000

  type u32 = x: int | 0 <= x <= U32_MAX
  type i128 = x: int | I128_MIN <= x <= I128_MAX

  /** An i128 result; the build has overflow checks on, so overflow aborts. */
  function Checked(x: int): (r: Result<int>)
    ensures r.Ok? <==> I128_MIN <= x <= I128_MAX
    ensures r.Ok? ==> r.value == x
  {
    if I128_MIN <= x <= I128_MAX then Ok(x) else Panic
  }

  /** Division that rounds toward zero, as on machine integers. */
  function TruncDiv(x: int, y: int): (q: int)
    requires y != 0
  {
    if 0 <= x then
      if 0 < y then x / y else -(x / -y)
    else
      if 0 < y then -(-x / y) else -x / -y
  }

  function CheckedDiv(x: int, y: int): Result<int> {
    if y == 0 then Panic else Checked(TruncDiv(x, y))
  }

  /** For non-negative operands the quotient is the largest q with q * y <= x. */
  lemma TruncDivIsFloor(x: int, y: int)
    requires 0 <= x && 0 < y
    ensures TruncDiv(x, y) * y <= x < (TruncDiv(x, y) + 1) * y
    ensures 0 <= TruncDiv(x, y) <= x
  {
    var q := TruncDiv(x, y);
    assert x == q * y + x % y;
    if q < 0 {
      MulMono(q, -1, y);
    }
    MulMono(1, y, q);
  }

  /** Division rounds toward zero: signs only turn the sign of the quotient. */
  lemma TruncDivSigns(x: int, y: int)
    requires y != 0
    ensures TruncDiv(-x, y) == -TruncDiv(x, y) && TruncDiv(x, -y) == -TruncDiv(x, y)
  {
  }

  lemma TruncDivSign(x: int, y: int)
    requires 0 < y
    ensures x <= 0 ==> TruncDiv(x, y) <= 0
    ensures 0 <= x ==> 0 <= TruncDiv(x, y)
  {
    if 0 <= x {
      TruncDivIsFloor(x, y);
    } else {
      TruncDivIsFloor(-x, y);
    }
  }

  lemma MulMono(a: int, b: int, c: int)
    requires a <= b && 0 <= c
    ensures a * c <= b * c
    ensures c * a <= c * b
  {
  }

  lemma MulCancel(a: int, b: int, c: int)
    requires 0 < c && a * c <= b * c
    ensures a <= b
  {
    if b < a {
      MulMono(b + 1, a, c);
    }
  }

  /** If q is the floor of x/y then q is at least every r with r * y <= x. */
  lemma FloorIsLargest(q: int, r: int, x: int, y: int)
    requires 0 < y && x < (q + 1) * y && r * y <= x
    ensures r <= q
  {
    if q < r {
      MulMono(q + 1, r, y);
    }
  }

  /** q is x / y rounded down. */
  ghost predicate IsFloor(q: int, x: int, y: int) {
    q * y <= x < (q + 1) * y
  }

  lemma TruncDivExactly(x: int, y: int, q: int)
    requires 0 <= x && 0 < y
    ensures TruncDiv(x, y) == q <==> IsFloor(q, x, y)
  {
    TruncDivIsFloor(x, y);
    var p := TruncDiv(x, y);
    if IsFloor(q, x, y) {
      FloorIsLargest(p, q, x, y);
      FloorIsLargest(q, p, x, y);
    }
  }

  // ----- sums over finite maps -----

  /** The sum of the values of a map. */
  ghost function Sum<K(!new)>(m: map<K, int>): int
    decreases |m|
  {
    if m == map[] then 0
    else
      var k :| k in m;
      m[k] + Sum(m - {k})
  }

  /** Any key may be taken out first. */
  lemma SumSplit<K(!new)>(m: map<K, int>, k: K)
    requires k in m
    ensures Sum(m) == m[k] + Sum(m - {k})
    decreases |m|
  {
    var p :| p in m && Sum(m) == m[p] + Sum(m - {p});
    if p != k {
      SumSplit(m - {p}, k);
      SumSplit(m - {k}, p);
      assert m - {p} - {k} == m - {k} - {p};
    }
  }

  function Get<K>(m: map<K, int>, k: K): int {
    if k in m then m[k] else 0
  }

  /** Overwriting one entry changes the sum by the change of that entry. */
  lemma SumUpdate<K(!new)>(m: map<K, int>, k: K, v: int)
    ensures Sum(m[k := v]) == Sum(m) - Get(m, k) + v
  {
    SumSplit(m[k := v], k);
    assert m[k := v] - {k} == m - {k};
    if k in m {
      SumSplit(m, k);
    } else {
      assert m - {k} == m;
    }
  }

  /** In a map of non-negative values no entry exceeds the sum. */
  lemma {:induction false} EntryAtMostSum<K(!new)>(m: map<K, int>, k: K)
    requires forall j :: j in m ==> 0 <= m[j]
    ensures 0 <= Get(m, k) <= Sum(m)
    decreases |m|
  {
    if m != map[] {
      var p :| p in m;
      var j := if k in m then k else p;
      SumSplit(m, j);
      EntryAtMostSum(m - {j}, j);
    }
  }
}
