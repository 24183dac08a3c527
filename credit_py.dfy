/**
 * The card validator of week6/credit/credit.py: the card number is a string,
 * tested for its length, its prefix and its Luhn checksum, and typed by its
 * first characters.
 */
module CreditPy {
  import opened Ascii
  import opened Basics
  import CreditC

  /** What `main` leaves behind: a printed type (`INVALID` included) or the `ValueError` of `int()`. */
  datatype Verdict = Printed(t: CreditC.CardType) | ValueError

  /** `check_length`. */
  predicate CheckLength(s: string)
    ensures CheckLength(s) <==> 13 <= |s| <= 16
    ensures CheckLength(s) ==> |s| > 0 && (s[0] == '3' ==> |s| > 1)
  {
    !(|s| < 13 || |s| > 16)
  }

  /** `check_prefix`; it indexes `s[0]`, and `s[1]` when `s[0]` is '3'. */
  predicate CheckPrefix(s: string)
    requires |s| > 0 && (s[0] == '3' ==> |s| > 1)
    ensures CheckPrefix(s) ==> '3' <= s[0] <= '6'
    ensures s[0] == '3' ==> (CheckPrefix(s) <==> s[1] == '7')
  {
    if s[0] == '4' || s[0] == '5' || s[0] == '6' then true
    else if s[0] == '3' && s[1] == '7' then true
    else false
  }

  /**
   * `check_card_type`; `None` is Python's `None`. It names a type exactly
   * when `check_prefix` accepts, each type for its own leading characters,
   * and never `INVALID`.
   */
  function CheckCardType(s: string): (r: Option<CreditC.CardType>)
    requires |s| > 0 && (s[0] == '3' ==> |s| > 1)
    ensures r.Some? <==> CheckPrefix(s)
    ensures r == Some(CreditC.Visa) <==> s[0] == '4'
    ensures r == Some(CreditC.MasterCard) <==> s[0] == '5'
    ensures r == Some(CreditC.Discover) <==> s[0] == '6'
    ensures r == Some(CreditC.Amex) <==> s[0] == '3' && s[1] == '7'
    ensures r != Some(CreditC.Invalid)
  {
    if s[0] == '4' then Some(CreditC.Visa)
    else if s[0] == '5' then Some(CreditC.MasterCard)
    else if s[0] == '6' then Some(CreditC.Discover)
    else if s[0] == '3' && s[1] == '7' then Some(CreditC.Amex)
    else None
  }

  /** `int(c)` succeeds on every character of `s`. */
  predicate AllDigits(s: string)
  {
    forall i :: 0 <= i < |s| ==> IsDigit(s[i])
  }

  /** `[int(i) for i in s]` on a string of digits. */
  function DigitValues(s: string): (ds: seq<int>)
    requires AllDigits(s)
    ensures |ds| == |s| && forall i :: 0 <= i < |s| ==> 0 <= ds[i] <= 9 && ds[i] == s[i] as int - '0' as int
  {
    seq(|s|, i requires 0 <= i < |s| => s[i] as int - '0' as int)
  }

  /** `s` in the opposite order, as `list.reverse()` leaves it. */
  function Reversed(s: seq<int>): (r: seq<int>)
    ensures |r| == |s| && forall i :: 0 <= i < |s| ==> r[i] == s[|s| - 1 - i]
  {
    seq(|s|, i requires 0 <= i < |s| => s[|s| - 1 - i])
  }

  /** `sum` of a list, taken from its end. */
  function Sum(s: seq<int>): int
  {
    if s == [] then 0 else Sum(s[..|s| - 1]) + s[|s| - 1]
  }

  /** `sum` also peels its first element. */
  lemma {:induction false} SumCons(x: int, s: seq<int>)
    ensures Sum([x] + s) == x + Sum(s)
    decreases |s|
  {
    if s != [] {
      var t := s[..|s| - 1];
      SumCons(x, t);
      assert ([x] + s)[..|s|] == [x] + t;
    }
  }

  /**
   * The digit list after the doubling loop: each digit at an odd index
   * doubled (less 9 above 9); with `second` the parities swap.
   */
  function LuhnTerms(ds: seq<int>, second: bool): (ts: seq<int>)
    requires forall i :: 0 <= i < |ds| ==> 0 <= ds[i] <= 9
    ensures |ts| == |ds|
  {
    seq(|ds|, i requires 0 <= i < |ds| => CreditC.Term(ds[i], (i % 2 == 1) != second))
  }

  /** Moving one place along flips the parity of an index. */
  lemma ParityStep(i: int)
    ensures (i % 2 == 1) == ((i - 1) % 2 == 0)
  {
    assert i == 2 * ((i - 1) / 2) + (i - 1) % 2 + 1;
  }

  /** The doubled list starts with its first term and goes on as the rest's list with the parities swapped. */
  lemma LuhnTermsCons(ds: seq<int>, second: bool)
    requires ds != [] && forall i :: 0 <= i < |ds| ==> 0 <= ds[i] <= 9
    ensures LuhnTerms(ds, second) == [CreditC.Term(ds[0], second)] + LuhnTerms(ds[1..], !second)
  {
    var ts, tail := LuhnTerms(ds, second), LuhnTerms(ds[1..], !second);
    forall i | 1 <= i < |ds|
      ensures ts[i] == tail[i - 1]
    {
      ParityStep(i);
    }
  }

  /** Summing the doubled list is the Luhn sum `TermSum` of credit.c's digits. */
  lemma {:induction false} SumOfLuhnTerms(ds: seq<int>, second: bool)
    requires forall i :: 0 <= i < |ds| ==> 0 <= ds[i] <= 9
    ensures Sum(LuhnTerms(ds, second)) == CreditC.TermSum(ds, second)
    decreases |ds|
  {
    if ds != [] {
      SumOfLuhnTerms(ds[1..], !second);
      LuhnTermsCons(ds, second);
      SumCons(CreditC.Term(ds[0], second), LuhnTerms(ds[1..], !second));
    }
  }

  /** `card_number.reverse()` on the list, in place. */
  method Reverse(a: array<int>)
    modifies a
    ensures a[..] == Reversed(old(a[..]))
  {
    var i, j := 0, a.Length - 1;
    while i < j
      invariant 0 <= i <= a.Length && j == a.Length - 1 - i && i <= j + 1
      invariant forall k :: 0 <= k < i || j < k < a.Length ==> a[k] == old(a[a.Length - 1 - k])
      invariant forall k :: i <= k <= j ==> a[k] == old(a[k])
    {
      a[i], a[j] := a[j], a[i];
      i, j := i + 1, j - 1;
    }
  }

  /** The doubling loop `for i in range(1, len, 2)` over the reversed digits. */
  method DoubleSecondDigits(a: array<int>)
    requires forall k :: 0 <= k < a.Length ==> 0 <= a[k] <= 9
    modifies a
    ensures a[..] == LuhnTerms(old(a[..]), false)
  {
    ghost var ds := a[..];
    var i := 1;
    while i < a.Length
      invariant 1 <= i <= a.Length + 1 && i % 2 == 1
      invariant forall k :: 0 <= k < a.Length ==>
        a[k] == (if k < i then CreditC.Term(ds[k], k % 2 == 1) else ds[k])
    {
      a[i] := a[i] * 2;
      if a[i] > 9 {
        a[i] := a[i] - 9;
      }
      i := i + 2;
    }
    assert a[..] == LuhnTerms(ds, false);
  }

  /** `[int(i) for i in card_number]`: the digit values in a fresh list, or `false` when `int()` raises. */
  method IntList(s: string) returns (a: array<int>, ok: bool)
    ensures fresh(a) && (ok <==> AllDigits(s))
    ensures ok ==> a[..] == DigitValues(s)
  {
    a := new int[|s|];
    for k := 0 to |s|
      invariant forall m :: 0 <= m < k ==> IsDigit(s[m]) && a[m] == s[m] as int - '0' as int
    {
      if !IsDigit(s[k]) {
        return a, false;
      }
      a[k] := s[k] as int - '0' as int;
    }
    ok := true;
  }

  /** `sum(card_number)`. */
  method SumList(a: array<int>) returns (total: int)
    ensures total == Sum(a[..])
  {
    total := 0;
    for k := 0 to a.Length
      invariant total == Sum(a[..k])
    {
      assert a[..k + 1][..k] == a[..k];
      total := total + a[k];
    }
    assert a[..a.Length] == a[..];
  }

  /**
   * `check_luhn`: `None` when `int()` raises on a character that is not a
   * digit, otherwise whether the Luhn sum of the reversed digits, with
   * every second one doubled and the first not, is a multiple of 10.
   */
  method CheckLuhn(s: string) returns (r: Option<bool>)
    ensures r.None? <==> !AllDigits(s)
    ensures r.Some? ==> (r.value <==> CreditC.TermSum(Reversed(DigitValues(s)), false) % 10 == 0)
  {
    var a, ok := IntList(s);
    if !ok {
      return None;
    }
    Reverse(a);
    ghost var rev := a[..];
    DoubleSecondDigits(a);
    var total := SumList(a);
    SumOfLuhnTerms(rev, false);
    r := Some(total % 10 == 0);
  }

  /**
   * `main` on the string `get_string` returns: the checks in `and` order,
   * so the prefix is tested only on 13 to 16 characters and `int()` runs
   * only after both, then the type or `INVALID`.
   */
  method Program(s: string) returns (out: Verdict)
    ensures !CheckLength(s) ==> out == Printed(CreditC.Invalid)
    ensures CheckLength(s) && !CheckPrefix(s) ==> out == Printed(CreditC.Invalid)
    ensures CheckLength(s) && CheckPrefix(s) ==> (out == ValueError <==> !AllDigits(s))
    ensures out.Printed? && out.t != CreditC.Invalid ==>
      (CheckLength(s) && CheckPrefix(s) && AllDigits(s) &&
       CreditC.TermSum(Reversed(DigitValues(s)), false) % 10 == 0 &&
       CheckCardType(s) == Some(out.t))
    ensures CheckLength(s) && CheckPrefix(s) && AllDigits(s) ==>
      (out == Printed(if CreditC.TermSum(Reversed(DigitValues(s)), false) % 10 == 0
                      then CheckCardType(s).value else CreditC.Invalid))
  {
    if !CheckLength(s) || !CheckPrefix(s) {
      return Printed(CreditC.Invalid);
    }
    var luhn := CheckLuhn(s);
    if luhn.None? {
      return ValueError;
    }
    if !luhn.value {
      return Printed(CreditC.Invalid);
    }
    var cardType := CheckCardType(s);
    if cardType.Some? {
      out := Printed(cardType.value);
    } else {
      out := Printed(CreditC.Invalid);
    }
  }

  /** The decimal string of a positive number, as `str(n)` writes it. */
  function DecimalString(n: int): (s: string)
    requires n > 0
    ensures AllDigits(s) && |s| > 0 && s[0] != '0'
    decreases n
  {
    var c := ('0' as int + n % 10) as char;
    if n < 10 then [c] else DecimalString(n / 10) + [c]
  }

  /** The reversed digit values of `str(n)` are the digits credit.c reads from `n` with `% 10`. */
  lemma {:induction false} ReversedDigitsOfDecimal(n: int)
    requires n > 0
    ensures Reversed(DigitValues(DecimalString(n))) == CreditC.Digits(n)
    decreases n
  {
    var c := ('0' as int + n % 10) as char;
    if n >= 10 {
      var t := DecimalString(n / 10);
      assert DecimalString(n) == t + [c];
      ReversedDigitsOfDecimal(n / 10);
      ReversedSnoc(t, c);
    } else {
      assert DecimalString(n) == [c];
      assert CreditC.Digits(n / 10) == [];
    }
    assert CreditC.Digits(n) == [n % 10] + CreditC.Digits(n / 10);
  }

  /** A digit appended to a string comes first once the digit values are reversed. */
  lemma ReversedSnoc(t: string, c: char)
    requires AllDigits(t) && IsDigit(c)
    ensures AllDigits(t + [c])
    ensures Reversed(DigitValues(t + [c])) == [c as int - '0' as int] + Reversed(DigitValues(t))
  {
    var s := t + [c];
    assert AllDigits(s) by {
      forall i | 0 <= i < |s|
        ensures IsDigit(s[i])
      {
        if i < |t| {
          assert s[i] == t[i];
        }
      }
    }
    var r, rt := Reversed(DigitValues(s)), Reversed(DigitValues(t));
    forall i | 1 <= i < |r|
      ensures r[i] == rt[i - 1]
    {
      assert s[|s| - 1 - i] == t[|t| - 1 - (i - 1)];
    }
    assert r[0] == c as int - '0' as int;
  }

  /**
   * On the decimal string of a positive card number `check_luhn` succeeds,
   * and it accepts exactly when credit.c's `luhn_algorithm` accepts the number.
   */
  lemma LuhnAgreesWithC(n: int)
    requires n > 0
    ensures AllDigits(DecimalString(n))
    ensures CreditC.TermSum(Reversed(DigitValues(DecimalString(n))), false) == CreditC.TermSum(CreditC.Digits(n), false)
    ensures |DecimalString(n)| == CreditC.NumDigits(n)
  {
    ReversedDigitsOfDecimal(n);
  }
}
