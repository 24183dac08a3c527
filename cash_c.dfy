/**
 * The change calculator of week1/cash/cash.c: a positive amount of dollars
 * is read, converted to cents, and paid out greedily in quarters, dimes,
 * nickels and pennies.
 */
module CashC {
  import opened Basics

  const QUARTER: int := 25
  const DIME: int := 10
  const NICKEL: int := 5
  const PENNY: int := 1
  const NUM_DENOMINATIONS: nat := 4

  /** The array `denominations` of `calculate_change`, largest coin first. */
  const DENOMINATIONS: seq<int> := [QUARTER, DIME, NICKEL, PENNY]

  /** Every coin is worth at least a cent. */
  predicate Positive(ds: seq<int>)
  {
    forall i :: 0 <= i < |ds| ==> ds[i] > 0
  }

  /**
   * How many coins of each denomination the greedy loop of
   * `calculate_change` takes: `cents / d`, and then goes on with
   * `cents % d`, both with C's truncating operators.
   */
  function CoinCounts(cents: int, ds: seq<int>): (cs: seq<int>)
    requires Positive(ds)
    ensures |cs| == |ds|
    decreases |ds|
  {
    if ds == [] then [] else [CDiv(cents, ds[0])] + CoinCounts(CRem(cents, ds[0]), ds[1..])
  }

  /** What is left of `cents` after the greedy loop over `ds`. */
  function Remainder(cents: int, ds: seq<int>): int
    requires Positive(ds)
    decreases |ds|
  {
    if ds == [] then cents else Remainder(CRem(cents, ds[0]), ds[1..])
  }

  /** The number of coins: the sum of the counts. */
  function Total(cs: seq<int>): int
  {
    if cs == [] then 0 else cs[0] + Total(cs[1..])
  }

  /** What the coins are worth: each count times its denomination. */
  function Value(cs: seq<int>, ds: seq<int>): int
    requires |cs| == |ds|
  {
    if cs == [] then 0 else cs[0] * ds[0] + Value(cs[1..], ds[1..])
  }

  /**
   * The number `calculate_change` prints for `cents`; for an amount that is
   * not negative it is the closed form `c/25 + (c%25)/10 + (c%25%10)/5 + c%5`.
   */
  function ChangeCount(cents: int): (n: int)
    ensures cents >= 0 ==> n == cents / 25 + (cents % 25) / 10 + (cents % 25 % 10) / 5 + cents % 5
  {
    if cents >= 0 then
      ChangeClosedForm(cents);
      Total(CoinCounts(cents, DENOMINATIONS))
    else
      Total(CoinCounts(cents, DENOMINATIONS))
  }

  /** C's `/` and `%` split a number into quotient and remainder. */
  lemma CDivRem(x: int, m: int)
    requires m > 0
    ensures m * CDiv(x, m) + CRem(x, m) == x
  {
    if x < 0 {
      assert m * ((-x) / m) + (-x) % m == -x;
    }
  }

  /**
   * The coins taken are worth the amount less what is left, whatever the
   * sign of the amount.
   */
  lemma {:induction false} GreedyPays(cents: int, ds: seq<int>)
    requires Positive(ds)
    ensures Value(CoinCounts(cents, ds), ds) + Remainder(cents, ds) == cents
    decreases |ds|
  {
    if ds != [] {
      GreedyPays(CRem(cents, ds[0]), ds[1..]);
      CDivRem(cents, ds[0]);
    }
  }

  /** For an amount that is not negative, one turn of the loop is Euclidean division. */
  lemma GreedyStep(cents: int, ds: seq<int>)
    requires cents >= 0 && ds != [] && Positive(ds)
    ensures CoinCounts(cents, ds) == [cents / ds[0]] + CoinCounts(cents % ds[0], ds[1..])
    ensures Remainder(cents, ds) == Remainder(cents % ds[0], ds[1..])
  {
  }

  /** Taking away quarters and dimes does not change the remainder modulo 5. */
  lemma PenniesLeft(cents: int)
    requires cents >= 0
    ensures cents % 25 % 10 % 5 == cents % 5
  {
    var q, r1 := cents / 25, cents % 25;
    var d, r2 := r1 / 10, r1 % 10;
    var n, r3 := r2 / 5, r2 % 5;
    assert cents == 25 * q + r1 && r1 == 10 * d + r2 && r2 == 5 * n + r3 && 0 <= r3 < 5;
    DivBy5(cents, 5 * q + 2 * d + n, r3);
  }

  /**
   * For an amount that is not negative the loop ends with nothing left,
   * the coins are worth exactly the amount, and the count is the closed
   * form `c/25 + (c%25)/10 + (c%25%10)/5 + c%5`.
   */
  lemma ChangeClosedForm(cents: int)
    requires cents >= 0
    ensures Remainder(cents, DENOMINATIONS) == 0
    ensures Value(CoinCounts(cents, DENOMINATIONS), DENOMINATIONS) == cents
    ensures Total(CoinCounts(cents, DENOMINATIONS)) == cents / 25 + (cents % 25) / 10 + (cents % 25 % 10) / 5 + cents % 5
  {
    var r1 := cents % 25;
    var r2 := r1 % 10;
    var r3 := r2 % 5;
    GreedyStep(cents, DENOMINATIONS);
    GreedyStep(r1, [DIME, NICKEL, PENNY]);
    GreedyStep(r2, [NICKEL, PENNY]);
    GreedyStep(r3, [PENNY]);
    var cs := CoinCounts(cents, DENOMINATIONS);
    assert cs == [cents / 25, r1 / 10, r2 / 5, r3];
    assert Total(cs[3..]) == r3;
    assert Total(cs[2..]) == r2 / 5 + Total(cs[3..]);
    assert Total(cs[1..]) == r1 / 10 + Total(cs[2..]);
    PenniesLeft(cents);
    GreedyPays(cents, DENOMINATIONS);
  }

  /**
   * The greedy count is the fewest coins: any quarters `q`, dimes `d`,
   * nickels `n` and pennies `p` worth `cents` are at least as many.
   */
  lemma {:induction false} ChangeIsMinimal(cents: int, q: nat, d: nat, n: nat, p: nat)
    requires 25 * q + 10 * d + 5 * n + p == cents
    ensures ChangeCount(cents) <= q + d + n + p
    decreases q + d + n + p
  {
    if p >= 5 {
      ChangeIsMinimal(cents, q, d, n + 1, p - 5);
    } else if n >= 2 {
      ChangeIsMinimal(cents, q, d + 1, n - 2, p);
    } else if d >= 3 {
      ChangeIsMinimal(cents, q + 1, d - 3, n + 1, p);
    } else if d == 2 && n == 1 {
      ChangeIsMinimal(cents, q + 1, 0, 0, p);
    } else {
      ChangeClosedForm(cents);
      SmallChange(cents, q, d, n, p);
    }
  }

  /** Coins that cannot be traded for fewer are exactly the greedy count. */
  lemma SmallChange(cents: int, q: nat, d: nat, n: nat, p: nat)
    requires 25 * q + 10 * d + 5 * n + p == cents
    requires p < 5 && n < 2 && d < 3 && !(d == 2 && n == 1)
    ensures cents / 25 + (cents % 25) / 10 + (cents % 25 % 10) / 5 + cents % 5 == q + d + n + p
  {
    var r := 10 * d + 5 * n + p;
    DivBy25(cents, q, r);
    DivBy10(r, d, 5 * n + p);
    DivBy5(5 * n + p, n, p);
    DivBy5(cents, 5 * q + 2 * d + n, p);
  }

  /** Quotient and remainder by 25 are unique. */
  lemma DivBy25(x: int, q: int, r: int)
    requires x == 25 * q + r && 0 <= r < 25
    ensures x / 25 == q && x % 25 == r
  {
  }

  /** Quotient and remainder by 10 are unique. */
  lemma DivBy10(x: int, q: int, r: int)
    requires x == 10 * q + r && 0 <= r < 10
    ensures x / 10 == q && x % 10 == r
  {
  }

  /** Quotient and remainder by 5 are unique. */
  lemma DivBy5(x: int, q: int, r: int)
    requires x == 5 * q + r && 0 <= r < 5
    ensures x / 5 == q && x % 5 == r
  {
  }



  /**
   * `calculate_change` after the conversion to cents: the loop adds
   * `cents / denominations[i]` to the count and keeps `cents % denominations[i]`.
   */
  method CalculateChange(centsOwed: int) returns (coinCount: int)
    ensures coinCount == ChangeCount(centsOwed)
  {
    var cents := centsOwed;
    coinCount := 0;
    for i := 0 to NUM_DENOMINATIONS
      invariant coinCount + Total(CoinCounts(cents, DENOMINATIONS[i..])) == ChangeCount(centsOwed)
    {
      assert DENOMINATIONS[i..][1..] == DENOMINATIONS[i + 1..];
      coinCount := coinCount + CDiv(cents, DENOMINATIONS[i]);
      cents := CRem(cents, DENOMINATIONS[i]);
    }
  }

  /** C's `round`: to the nearest integer, halfway cases away from zero. */
  function Round(x: real): (r: int)
    ensures x >= 0.0 ==> x - 0.5 < r as real <= x + 0.5
    ensures x <= 0.0 ==> x - 0.5 <= r as real < x + 0.5
  {
    if x >= 0.0 then (x + 0.5).Floor else -((-x + 0.5).Floor)
  }

  /**
   * `main`: `get_valid_cash` asks again while the amount is not positive
   * (`entries` are the amounts typed; `None` when they run out), then the
   * amount in cents, rounded, is changed.
   */
  method Program(entries: seq<real>) returns (out: Option<int>)
    ensures out.None? <==> forall i :: 0 <= i < |entries| ==> entries[i] <= 0.0
    ensures out.Some? ==> exists i :: (0 <= i < |entries| && entries[i] > 0.0 &&
      (forall k :: 0 <= k < i ==> entries[k] <= 0.0) &&
      out.value == ChangeCount(Round(entries[i] * 100.0)))
    ensures out.Some? ==> out.value >= 0
  {
    var i := 0;
    while i < |entries| && entries[i] <= 0.0
      invariant 0 <= i <= |entries|
      invariant forall k :: 0 <= k < i ==> entries[k] <= 0.0
    {
      i := i + 1;
    }
    if i == |entries| {
      return None;
    }
    var cents := Round(entries[i] * 100.0);
    ChangeClosedForm(cents);
    var coinCount := CalculateChange(cents);
    out := Some(coinCount);
  }

  /** The documented example: 0.41 dollars are 41 cents, paid with 4 coins. */
  lemma DocumentedExample()
    ensures Round(0.41 * 100.0) == 41 && ChangeCount(41) == 4
  {
    ChangeClosedForm(41);
  }
}
