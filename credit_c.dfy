/**
 * The card validator of week1/credit/credit.c: the Luhn checksum of a card
 * number, then its type from its length and its first two digits.
 */
module CreditC {
  import opened Basics

  /** What the programs print. `Discover` is printed by the Python version only. */
  datatype CardType = Amex | MasterCard | Visa | Discover | Invalid

  /**
   * A doubled digit as Luhn adds it: `2d`, less 9 when that exceeds 9,
   * which is the sum of the decimal digits of `2d`.
   */
  function Doubled(d: int): (r: int)
    requires 0 <= d <= 9
    ensures 0 <= r <= 9
  {
    if 2 * d > 9 then 2 * d - 9 else 2 * d
  }

  /** Subtracting 9 from a two-digit double is adding its two digits. */
  lemma DoubledIsDigitSum(d: int)
    requires 0 <= d <= 9
    ensures Doubled(d) == (2 * d) / 10 + (2 * d) % 10
  {
  }

  /** What one digit adds to the sum: doubled when it is a second digit. */
  function Term(d: int, second: bool): (r: int)
    requires 0 <= d <= 9
    ensures 0 <= r <= 9
  {
    if second then Doubled(d) else d
  }

  /**
   * The Luhn sum of the digits of `n`, read from the right; `second` says
   * whether the rightmost one is a second (doubled) digit.
   */
  function LuhnSum(n: int, second: bool): (s: nat)
    decreases if n < 0 then 0 else n
  {
    if n <= 0 then 0 else Term(n % 10, second) + LuhnSum(n / 10, !second)
  }

  /** The decimal digits of `n`, least significant first; none for `n <= 0`. */
  function Digits(n: int): (ds: seq<int>)
    ensures forall i :: 0 <= i < |ds| ==> 0 <= ds[i] <= 9
    decreases if n < 0 then 0 else n
  {
    if n <= 0 then [] else [n % 10] + Digits(n / 10)
  }

  /** The sum of the terms of a digit list read from its start, with alternating doubling. */
  function TermSum(ds: seq<int>, second: bool): int
    requires forall i :: 0 <= i < |ds| ==> 0 <= ds[i] <= 9
  {
    if ds == [] then 0 else Term(ds[0], second) + TermSum(ds[1..], !second)
  }

  /**
   * The Luhn sum is the sum over the digits, rightmost first, of every
   * digit, with every second digit doubled and the rightmost one not.
   */
  lemma {:induction false} LuhnSumOfDigits(n: int, second: bool)
    ensures LuhnSum(n, second) == TermSum(Digits(n), second)
    decreases if n < 0 then 0 else n
  {
    if n > 0 {
      LuhnSumOfDigits(n / 10, !second);
      assert Digits(n)[1..] == Digits(n / 10);
    }
  }

  /** `luhn_algorithm`: the digits walked from the right, alternating `is_second`, and the test `sum % 10 == 0`. */
  method LuhnAlgorithm(cardNumber: int) returns (valid: bool)
    ensures valid <==> TermSum(Digits(cardNumber), false) % 10 == 0
  {
    var sum := 0;
    var isSecond := false;
    var temp := cardNumber;
    while temp > 0
      invariant sum + LuhnSum(temp, isSecond) == LuhnSum(cardNumber, false)
      decreases temp
    {
      var digit := temp % 10;
      if isSecond {
        digit := digit * 2;
        sum := sum + if digit > 9 then digit - 9 else digit;
      } else {
        sum := sum + digit;
      }
      isSecond := !isSecond;
      temp := temp / 10;
    }
    LuhnSumOfDigits(cardNumber, false);
    valid := sum % 10 == 0;
  }

  /** The number of decimal digits of `n`; 0 for `n <= 0`. */
  function NumDigits(n: int): (len: nat)
    ensures len == |Digits(n)|
    decreases if n < 0 then 0 else n
  {
    if n <= 0 then 0 else 1 + NumDigits(n / 10)
  }

  /** `n` has `NumDigits(n)` digits: it lies between the powers of ten that bound them. */
  lemma {:induction false} NumDigitsBounds(n: int)
    requires n > 0
    ensures Pow10(NumDigits(n) - 1) <= n < Pow10(NumDigits(n))
    decreases n
  {
    if n >= 10 {
      NumDigitsBounds(n / 10);
    }
  }

  /** The number `first_two_digits` ends as: `n` divided by 10 while it is 100 or more. */
  function LeadingTwo(n: int): (f: int)
    ensures n < 100 ==> f == n
    ensures n >= 10 ==> 10 <= f <= 99
    decreases if n < 0 then 0 else n
  {
    if n < 100 then n else LeadingTwo(n / 10)
  }

  /** Bounds on `n / 10` by multiples of `p` scale to bounds on `n` by multiples of `10 * p`. */
  lemma ScaleBounds(f: int, p: int, q: int, n: int)
    requires n >= 0 && f * p <= n / 10 < (f + 1) * p && q == 10 * p
    ensures f * q <= n < (f + 1) * q
  {
    var m := n / 10;
    assert f * q == 10 * (f * p);
    assert (f + 1) * q == 10 * ((f + 1) * p);
    assert m + 1 <= (f + 1) * p;
    assert n < 10 * (m + 1);
  }

  /** For `n >= 10`, `LeadingTwo(n)` is made of the two leading digits of `n`. */
  lemma {:induction false} LeadingTwoIsPrefix(n: int)
    requires n >= 10
    ensures var p := Pow10(NumDigits(n) - 2);
      LeadingTwo(n) * p <= n < (LeadingTwo(n) + 1) * p
    decreases n
  {
    if n >= 100 {
      var p, q := Pow10(NumDigits(n / 10) - 2), Pow10(NumDigits(n) - 2);
      assert LeadingTwo(n) == LeadingTwo(n / 10);
      assert q == 10 * p;
      LeadingTwoIsPrefix(n / 10);
      ScaleBounds(LeadingTwo(n), p, q, n);
    } else {
      assert NumDigits(n) == 2 by {
        assert NumDigits(n / 10) == 1;
      }
    }
  }

  /** The if-else chain of `determine_card_type`. */
  function TypeOf(length: int, firstTwoDigits: int): (t: CardType)
    ensures t == Amex ==> length == 15
    ensures t == MasterCard ==> length == 16
    ensures t == Visa ==> length == 13 || length == 16
  {
    if length == 15 && (firstTwoDigits == 34 || firstTwoDigits == 37) then Amex
    else if length == 16 && firstTwoDigits >= 51 && firstTwoDigits <= 55 then MasterCard
    else if (length == 13 || length == 16) && firstTwoDigits / 10 == 4 then Visa
    else Invalid
  }

  /** The three branches are disjoint, so each type is chosen exactly when its own condition holds. */
  lemma TypeOfIff(length: int, firstTwoDigits: int)
    requires 10 <= firstTwoDigits <= 99
    ensures TypeOf(length, firstTwoDigits) == Amex <==> length == 15 && (firstTwoDigits == 34 || firstTwoDigits == 37)
    ensures TypeOf(length, firstTwoDigits) == MasterCard <==> length == 16 && 51 <= firstTwoDigits <= 55
    ensures TypeOf(length, firstTwoDigits) == Visa <==> (length == 13 || length == 16) && 40 <= firstTwoDigits <= 49
    ensures TypeOf(length, firstTwoDigits) != Discover
  {
  }

  /** `determine_card_type`: the length loop, the leading-digits loop and the chain of tests. */
  method DetermineCardType(cardNumber: int) returns (t: CardType)
    ensures t == TypeOf(NumDigits(cardNumber), LeadingTwo(cardNumber))
  {
    var temp := cardNumber;
    var length := 0;
    while temp > 0
      invariant length + NumDigits(temp) == NumDigits(cardNumber)
      decreases if temp < 0 then 0 else temp
    {
      temp := temp / 10;
      length := length + 1;
    }
    temp := cardNumber;
    while temp >= 100
      invariant LeadingTwo(temp) == LeadingTwo(cardNumber)
      decreases temp
    {
      temp := temp / 10;
    }
    var firstTwoDigits := temp;
    var firstDigit := firstTwoDigits / 10;
    if length == 15 && (firstTwoDigits == 34 || firstTwoDigits == 37) {
      t := Amex;
    } else if length == 16 && firstTwoDigits >= 51 && firstTwoDigits <= 55 {
      t := MasterCard;
    } else if (length == 13 || length == 16) && firstDigit == 4 {
      t := Visa;
    } else {
      t := Invalid;
    }
  }

  /** What the program prints for an accepted number: its type when the checksum passes, else INVALID. */
  function Classify(cardNumber: int): CardType
  {
    if TermSum(Digits(cardNumber), false) % 10 == 0 then TypeOf(NumDigits(cardNumber), LeadingTwo(cardNumber)) else Invalid
  }

  /**
   * `main`: `get_long` is asked again while the number is not positive
   * (`entries` are the numbers typed, `None` when they run out), then the
   * checksum and the type decide what is printed.
   */
  method Program(entries: seq<int>) returns (out: Option<CardType>)
    ensures out.None? <==> forall i :: 0 <= i < |entries| ==> entries[i] <= 0
    ensures out.Some? ==> exists i :: (0 <= i < |entries| && entries[i] > 0 &&
      (forall k :: 0 <= k < i ==> entries[k] <= 0) && out.value == Classify(entries[i]))
  {
    var i := 0;
    while i < |entries| && entries[i] <= 0
      invariant 0 <= i <= |entries|
      invariant forall k :: 0 <= k < i ==> entries[k] <= 0
    {
      i := i + 1;
    }
    if i == |entries| {
      return None;
    }
    var cardNumber := entries[i];
    var valid := LuhnAlgorithm(cardNumber);
    if valid {
      var t := DetermineCardType(cardNumber);
      out := Some(t);
    } else {
      out := Some(Invalid);
    }
  }

  /** One step of the Luhn sum: the last digit `d` of `10 * m + d` and the sum of `m`. */
  lemma LuhnStep(m: nat, d: int, second: bool)
    requires 0 <= d <= 9 && 10 * m + d > 0
    ensures LuhnSum(10 * m + d, second) == Term(d, second) + LuhnSum(m, !second)
  {
  }

  /** The Luhn sum of the documented example, taken digit by digit from the right. */
  lemma AmexExampleSum(n: int)
    requires n == 378282246310005
    ensures LuhnSum(n, false) == 60
  {
    var n0 := n;
    var n1 := n0 / 10;
    assert n1 == 37828224631000 && n0 % 10 == 5;
    LuhnStep(n1, n0 % 10, false);
    var n2 := n1 / 10;
    assert n2 == 3782822463100 && n1 % 10 == 0;
    LuhnStep(n2, n1 % 10, true);
    var n3 := n2 / 10;
    assert n3 == 378282246310 && n2 % 10 == 0;
    LuhnStep(n3, n2 % 10, false);
    var n4 := n3 / 10;
    assert n4 == 37828224631 && n3 % 10 == 0;
    LuhnStep(n4, n3 % 10, true);
    var n5 := n4 / 10;
    assert n5 == 3782822463 && n4 % 10 == 1;
    LuhnStep(n5, n4 % 10, false);
    var n6 := n5 / 10;
    assert n6 == 378282246 && n5 % 10 == 3;
    LuhnStep(n6, n5 % 10, true);
    var n7 := n6 / 10;
    assert n7 == 37828224 && n6 % 10 == 6;
    LuhnStep(n7, n6 % 10, false);
    var n8 := n7 / 10;
    assert n8 == 3782822 && n7 % 10 == 4;
    LuhnStep(n8, n7 % 10, true);
    var n9 := n8 / 10;
    assert n9 == 378282 && n8 % 10 == 2;
    LuhnStep(n9, n8 % 10, false);
    var n10 := n9 / 10;
    assert n10 == 37828 && n9 % 10 == 2;
    LuhnStep(n10, n9 % 10, true);
    var n11 := n10 / 10;
    assert n11 == 3782 && n10 % 10 == 8;
    LuhnStep(n11, n10 % 10, false);
    var n12 := n11 / 10;
    assert n12 == 378 && n11 % 10 == 2;
    LuhnStep(n12, n11 % 10, true);
    var n13 := n12 / 10;
    assert n13 == 37 && n12 % 10 == 8;
    LuhnStep(n13, n12 % 10, false);
    var n14 := n13 / 10;
    assert n14 == 3 && n13 % 10 == 7;
    LuhnStep(n14, n13 % 10, true);
    var n15 := n14 / 10;
    assert n15 == 0 && n14 % 10 == 3;
    LuhnStep(n15, n14 % 10, false);
  }

  /** The documented example has 15 digits. */
  lemma AmexExampleLength(n: int)
    requires n == 378282246310005
    ensures NumDigits(n) == 15
  {
    assert NumDigits(3) == 1;
    assert NumDigits(37) == 2;
    assert NumDigits(378) == 3;
    assert NumDigits(3782) == 4;
    assert NumDigits(37828) == 5;
    assert NumDigits(378282) == 6;
    assert NumDigits(3782822) == 7;
    assert NumDigits(37828224) == 8;
    assert NumDigits(378282246) == 9;
    assert NumDigits(3782822463) == 10;
    assert NumDigits(37828224631) == 11;
    assert NumDigits(378282246310) == 12;
    assert NumDigits(3782822463100) == 13;
    assert NumDigits(37828224631000) == 14;
  }

  /** The documented example starts with 37. */
  lemma AmexExamplePrefix(n: int)
    requires n == 378282246310005
    ensures LeadingTwo(n) == 37
  {
    assert LeadingTwo(37) == 37;
    assert LeadingTwo(378) == 37;
    assert LeadingTwo(3782) == 37;
    assert LeadingTwo(37828) == 37;
    assert LeadingTwo(378282) == 37;
    assert LeadingTwo(3782822) == 37;
    assert LeadingTwo(37828224) == 37;
    assert LeadingTwo(378282246) == 37;
    assert LeadingTwo(3782822463) == 37;
    assert LeadingTwo(37828224631) == 37;
    assert LeadingTwo(378282246310) == 37;
    assert LeadingTwo(3782822463100) == 37;
    assert LeadingTwo(37828224631000) == 37;
  }

  /** The documented example: the number 378282246310005 is printed as AMEX. */
  lemma AmexExample(n: int)
    requires n == 378282246310005
    ensures Classify(n) == Amex
  {
    AmexExampleSum(n);
    LuhnSumOfDigits(n, false);
    assert TermSum(Digits(n), false) % 10 == 0;
    AmexExampleLength(n);
    AmexExamplePrefix(n);
  }
}
