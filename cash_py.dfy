/**
 * The change calculator of week6/cash/cash.py: `calculate_min_coins` pays
 * an amount greedily over any list of denominations, and `main` uses it
 * with `DENOMINATIONS` on the amount typed, rounded to cents.
 */
module CashPy {
  import opened Basics
  import CashC

  /** `DENOMINATIONS`, in cents. */
  const DENOMINATIONS: seq<int> := [25, 10, 5, 1]

  /**
   * How many coins of each denomination `calculate_min_coins` takes:
   * `amount // coin`, and then it goes on with `amount % coin`. For a
   * positive coin Python's floor operators are Dafny's `/` and `%`.
   */
  function Counts(amount: int, ds: seq<int>): (cs: seq<int>)
    requires CashC.Positive(ds)
    ensures |cs| == |ds|
    decreases |ds|
  {
    if ds == [] then [] else [amount / ds[0]] + Counts(amount % ds[0], ds[1..])
  }

  /** What is left of `amount` after the loop over `ds`. */
  function Leftover(amount: int, ds: seq<int>): int
    requires CashC.Positive(ds)
    decreases |ds|
  {
    if ds == [] then amount else Leftover(amount % ds[0], ds[1..])
  }

  /** `calculate_min_coins`: the loop `for coin in coin_denominations`. */
  method CalculateMinCoins(amount: int, coinDenominations: seq<int>) returns (coins: int)
    requires CashC.Positive(coinDenominations)
    ensures coins == CashC.Total(Counts(amount, coinDenominations))
  {
    coins := 0;
    var left := amount;
    for k := 0 to |coinDenominations|
      invariant coins + CashC.Total(Counts(left, coinDenominations[k..])) == CashC.Total(Counts(amount, coinDenominations))
    {
      var coin := coinDenominations[k];
      assert coinDenominations[k..][1..] == coinDenominations[k + 1..];
      coins := coins + left / coin;
      left := left % coin;
    }
  }

  /** The coins taken are worth the amount less what is left. */
  lemma {:induction false} MinCoinsPays(amount: int, ds: seq<int>)
    requires CashC.Positive(ds)
    ensures CashC.Value(Counts(amount, ds), ds) + Leftover(amount, ds) == amount
    decreases |ds|
  {
    if ds != [] {
      MinCoinsPays(amount % ds[0], ds[1..]);
    }
  }

  /**
   * For an amount that is not negative every count is not negative, so
   * the result is not negative; an amount of 0 takes no coin at all.
   */
  lemma {:induction false} MinCoinsNonNegative(amount: int, ds: seq<int>)
    requires CashC.Positive(ds) && amount >= 0
    ensures forall i :: 0 <= i < |ds| ==> Counts(amount, ds)[i] >= 0
    ensures CashC.Total(Counts(amount, ds)) >= 0
    ensures amount == 0 ==> CashC.Total(Counts(amount, ds)) == 0
    decreases |ds|
  {
    if ds != [] {
      var coin, tail := ds[0], ds[1..];
      var rest := amount % coin;
      assert coin > 0 && CashC.Positive(tail);
      FloorNonNegative(amount, coin);
      MinCoinsNonNegative(rest, tail);
      var cs, more := Counts(amount, ds), Counts(rest, tail);
      assert cs == [amount / coin] + more;
      assert CashC.Total(cs) == amount / coin + CashC.Total(more);
      forall i | 0 <= i < |ds|
        ensures cs[i] >= 0
      {
        if i > 0 {
          assert cs[i] == more[i - 1];
        }
      }
    }
  }

  /** Floor division of an amount that is not negative by a positive coin. */
  lemma FloorNonNegative(amount: int, coin: int)
    requires amount >= 0 && coin > 0
    ensures amount / coin >= 0 && 0 <= amount % coin < coin
    ensures amount == 0 ==> amount / coin == 0 && amount % coin == 0
  {
  }

  /** The list ends with the penny, so nothing is left, whatever the amount. */
  lemma NothingLeft(amount: int)
    ensures Leftover(amount, DENOMINATIONS) == 0
    ensures CashC.Value(Counts(amount, DENOMINATIONS), DENOMINATIONS) == amount
  {
    var r3 := amount % 25 % 10 % 5;
    assert Leftover(amount, DENOMINATIONS) == Leftover(r3, [1]);
    MinCoinsPays(amount, DENOMINATIONS);
  }

  /**
   * For an amount that is not negative the Python loop takes, denomination
   * by denomination, the coins the C loop takes.
   */
  lemma {:induction false} AgreesWithC(amount: int, ds: seq<int>)
    requires CashC.Positive(ds) && amount >= 0
    ensures Counts(amount, ds) == CashC.CoinCounts(amount, ds)
    ensures Leftover(amount, ds) == CashC.Remainder(amount, ds)
    decreases |ds|
  {
    if ds != [] {
      AgreesWithC(amount % ds[0], ds[1..]);
      CashC.GreedyStep(amount, ds);
    }
  }

  /**
   * The doc comment's claim: with `DENOMINATIONS` the result is the fewest
   * coins worth the amount.
   */
  lemma MinCoinsIsMinimal(amount: int, q: nat, d: nat, n: nat, p: nat)
    requires 25 * q + 10 * d + 5 * n + p == amount
    ensures CashC.Total(Counts(amount, DENOMINATIONS)) <= q + d + n + p
  {
    AgreesWithC(amount, DENOMINATIONS);
    CashC.ChangeIsMinimal(amount, q, d, n, p);
  }

  /** Python's `round`: to the nearest integer, halfway cases to the even one. */
  function RoundHalfEven(x: real): (r: int)
    ensures x - 0.5 <= r as real <= x + 0.5
    ensures (r as real == x - 0.5 || r as real == x + 0.5) ==> r % 2 == 0
  {
    var f := x.Floor;
    var frac := x - f as real;
    if frac < 0.5 then f
    else if frac > 0.5 then f + 1
    else if f % 2 == 0 then f
    else f + 1
  }

  /**
   * `main`: `get_change_amount` asks again while the amount is not
   * positive (`entries` are the amounts typed; `None` when they run out),
   * then `calculate_min_coins` on the rounded cents.
   */
  method Program(entries: seq<real>) returns (out: Option<int>)
    ensures out.None? <==> forall i :: 0 <= i < |entries| ==> entries[i] <= 0.0
    ensures out.Some? ==> exists i :: (0 <= i < |entries| && entries[i] > 0.0 &&
      (forall k :: 0 <= k < i ==> entries[k] <= 0.0) &&
      out.value == CashC.Total(Counts(RoundHalfEven(entries[i] * 100.0), DENOMINATIONS)))
    ensures out.Some? ==> out.value >= 0
  {
    var i := 0;
    while i < |entries| && entries[i] <= 0.0
      invariant 0 <= i <= |entries|
      invariant forall k :: 0 <= k < i ==> entries[k] <= 0.0
    {
      i := i + 1;
    }
    if i == |entries| {
      return None;
    }
    var cents := RoundHalfEven(entries[i] * 100.0);
    MinCoinsNonNegative(cents, DENOMINATIONS);
    var coinCount := CalculateMinCoins(cents, DENOMINATIONS);
    out := Some(coinCount);
  }

  /**
   * The two programs round differently: 0.125 dollars are 13 cents and 4
   * coins for cash.c's `round`, 12 cents and 3 coins for Python's.
   */
  lemma RoundingDiffers()
    ensures CashC.Round(0.125 * 100.0) == 13 && CashC.ChangeCount(13) == 4
    ensures RoundHalfEven(0.125 * 100.0) == 12 && CashC.Total(Counts(12, DENOMINATIONS)) == 3
  {
    CashC.ChangeClosedForm(13);
    AgreesWithC(12, DENOMINATIONS);
    CashC.ChangeClosedForm(12);
  }
}
