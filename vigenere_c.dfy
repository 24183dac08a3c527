/**
 * The Vigenère cipher of week2/vigenere/vigenere.c: the keyword is turned
 * into an array of shifts, and the `j`-th letter of the message, counting
 * letters only, is shifted in place by `key[j % keylen]` with the Caesar
 * rule of week2/caesar/caesar.c.
 */
module VigenereC {
  import opened Basics
  import opened Ascii
  import CaesarC

  /** How a run ends; `Undefined` is a run the C standard gives no meaning to. */
  datatype Outcome = Usage | BadKeyword | NoInput | Undefined | Ciphertext(text: string)

  /** Every character of `s` is a letter (true of the empty string). */
  predicate AllAlpha(s: string)
  {
    forall i :: 0 <= i < |s| ==> IsAlpha(s[i])
  }

  /** `is_alpha_string`: walks the string and fails at the first character that is not a letter. */
  method IsAlphaString(str: string) returns (ok: bool)
    ensures ok <==> AllAlpha(str)
  {
    var i := 0;
    while i < |str|
      invariant 0 <= i <= |str|
      invariant forall k :: 0 <= k < i ==> IsAlpha(str[k])
    {
      if !IsAlpha(str[i]) {
        return false;
      }
      i := i + 1;
    }
    return true;
  }

  /**
   * `shift`: `c - 'A'` for an uppercase letter and `c - 'a'` for anything
   * else; for a letter of either case it is the letter's place in the
   * alphabet.
   */
  function Shift(c: char): (r: int)
    ensures IsAlpha(c) ==> 0 <= r < 26 && ToLower(c) as int == 'a' as int + r
    ensures !IsUpper(c) ==> r == c as int - 'a' as int
  {
    if IsUpper(c) then c as int - 'A' as int else c as int - 'a' as int
  }

  /** The `key[]` array `encrypt` builds from the keyword. */
  function Keys(keyword: string): (keys: seq<int>)
    ensures |keys| == |keyword|
    ensures AllAlpha(keyword) ==> forall k :: 0 <= k < |keys| ==> 0 <= keys[k] < 26
  {
    seq(|keyword|, i requires 0 <= i < |keyword| => Shift(keyword[i]))
  }

  /** The number of letters among the first `i` characters of `s`. */
  function LetterCount(s: string, i: nat): (n: nat)
    requires i <= |s|
    ensures n <= i
  {
    if i == 0 then 0 else LetterCount(s, i - 1) + (if IsAlpha(s[i - 1]) then 1 else 0)
  }

  /**
   * The value of the counter `j` when the loop reaches position `i`: it
   * moves to `(j + 1) % keylen` after every letter.
   */
  function KeyIndex(s: string, i: nat, keylen: int): (j: int)
    requires i <= |s| && keylen > 0
    ensures 0 <= j < keylen
  {
    if i == 0 then 0
    else if IsAlpha(s[i - 1]) then (KeyIndex(s, i - 1, keylen) + 1) % keylen
    else KeyIndex(s, i - 1, keylen)
  }

  /**
   * The ciphertext: the character at `i` goes through the Caesar rule with
   * the shift of the keyword letter the counter points at (non-letters come
   * out unchanged).
   */
  function CipherText(s: string, keys: seq<int>): (r: string)
    requires |keys| > 0
    ensures |r| == |s|
  {
    seq(|s|, i requires 0 <= i < |s| => CipherChar(s, keys, i))
  }

  /** The character at `i` of the cipher text. */
  function CipherChar(s: string, keys: seq<int>, i: nat): char
    requires |keys| > 0 && i < |s|
  {
    CaesarC.ShiftChar(s[i], keys[KeyIndex(s, i, |keys|)])
  }

  /** A larger multiplier adds at least one more `m`. */
  lemma MulStep(m: int, a: int, b: int)
    requires m > 0 && a < b
    ensures m * a + m <= m * b
  {
    MulMono(m, a + 1, b);
    assert m * (a + 1) == m * a + m;
  }

  /** A remainder is unique: `x == m * q + r` with `0 <= r < m` makes `r` the remainder of `x`. */
  lemma ModUnique(x: int, m: int, q: int, r: int)
    requires m > 0 && 0 <= r < m && x == m * q + r
    ensures x % m == r
  {
    var q0, r0 := x / m, x % m;
    assert x == m * q0 + r0;
    if q0 < q {
      MulStep(m, q0, q);
    } else if q < q0 {
      MulStep(m, q, q0);
    }
  }

  /** `(a + 1) % m == (a % m + 1) % m`. */
  lemma ModSucc(a: nat, m: int)
    requires m > 0
    ensures (a + 1) % m == (a % m + 1) % m
  {
    var q, r := a / m, a % m;
    if r + 1 < m {
      ModUnique(a + 1, m, q, r + 1);
    } else {
      ModUnique(a + 1, m, q + 1, 0);
    }
  }

  /** The counter is the number of letters so far, reduced modulo the keyword length. */
  lemma {:induction false} KeyIndexCountsLetters(s: string, i: nat, keylen: int)
    requires i <= |s| && keylen > 0
    ensures KeyIndex(s, i, keylen) == LetterCount(s, i) % keylen
  {
    if i > 0 {
      KeyIndexCountsLetters(s, i - 1, keylen);
      var before := LetterCount(s, i - 1);
      if IsAlpha(s[i - 1]) {
        assert LetterCount(s, i) == before + 1;
        assert KeyIndex(s, i, keylen) == (before % keylen + 1) % keylen;
        ModSucc(before, keylen);
      } else {
        assert LetterCount(s, i) == before;
      }
    }
  }

  /**
   * The promise of the cipher: the `j`-th letter of the message, counting
   * letters only, is shifted by the shift of keyword letter `j % keylen`,
   * keeping its case; every other character is unchanged.
   */
  lemma CipherTextLetters(s: string, keys: seq<int>, i: int)
    requires |keys| > 0 && 0 <= i < |s|
    requires forall k :: 0 <= k < |keys| ==> 0 <= keys[k] < 26
    ensures !IsAlpha(s[i]) ==> CipherText(s, keys)[i] == s[i]
    ensures IsUpper(s[i]) ==> (IsUpper(CipherText(s, keys)[i]) &&
      CipherText(s, keys)[i] as int - 'A' as int == (s[i] as int - 'A' as int + keys[LetterCount(s, i) % |keys|]) % 26)
    ensures IsLower(s[i]) ==> (IsLower(CipherText(s, keys)[i]) &&
      CipherText(s, keys)[i] as int - 'a' as int == (s[i] as int - 'a' as int + keys[LetterCount(s, i) % |keys|]) % 26)
  {
    KeyIndexCountsLetters(s, i, |keys|);
  }

  /**
   * The first `i` characters of the cipher text, one character after the
   * other as the loop of `encrypt` produces them.
   */
  function CipherPrefix(s: string, keys: seq<int>, i: nat): (r: string)
    requires |keys| > 0 && i <= |s|
    ensures |r| == i
  {
    if i == 0 then [] else CipherPrefix(s, keys, i - 1) + [CipherChar(s, keys, i - 1)]
  }

  /** Taking one more element of a sequence appends it. */
  lemma PrefixSnoc<T>(t: seq<T>, i: nat)
    requires i < |t|
    ensures t[..i + 1] == t[..i] + [t[i]]
  {
  }

  /** Character by character, the loop produces the cipher text. */
  lemma {:induction false} CipherPrefixIsText(s: string, keys: seq<int>, i: nat)
    requires |keys| > 0 && i <= |s|
    ensures CipherPrefix(s, keys, i) == CipherText(s, keys)[..i]
  {
    if i > 0 {
      CipherPrefixIsText(s, keys, i - 1);
      PrefixSnoc(CipherText(s, keys), i - 1);
    }
  }

  /** One character of the loop: the counter after it, and the character it writes. */
  lemma CipherStep(s: string, keys: seq<int>, i: nat, j: int)
    requires |keys| > 0 && i < |s| && j == KeyIndex(s, i, |keys|)
    ensures KeyIndex(s, i + 1, |keys|) == if IsAlpha(s[i]) then (j + 1) % |keys| else j
    ensures CipherPrefix(s, keys, i + 1) == CipherPrefix(s, keys, i) + [if IsAlpha(s[i]) then CaesarC.ShiftChar(s[i], keys[j]) else s[i]]
  {
  }

  /** The counter depends only on which characters are letters. */
  lemma {:induction false} KeyIndexAlike(s: string, t: string, i: nat, keylen: int)
    requires |s| == |t| && i <= |s| && keylen > 0
    requires forall k :: 0 <= k < |s| ==> (IsAlpha(s[k]) <==> IsAlpha(t[k]))
    ensures KeyIndex(t, i, keylen) == KeyIndex(s, i, keylen)
  {
    if i > 0 {
      KeyIndexAlike(s, t, i - 1, keylen);
    }
  }

  /** With shifts in `[0, 26)` letters stay letters and other characters stay put. */
  lemma CipherTextKeepsLetters(s: string, keys: seq<int>)
    requires |keys| > 0
    requires forall k :: 0 <= k < |keys| ==> 0 <= keys[k] < 26
    ensures forall k :: 0 <= k < |s| ==> (IsAlpha(CipherText(s, keys)[k]) <==> IsAlpha(s[k]))
  {
    forall k | 0 <= k < |s|
      ensures IsAlpha(CipherText(s, keys)[k]) <==> IsAlpha(s[k])
    {
      var c, key := s[k], keys[KeyIndex(s, k, |keys|)];
      assert CipherText(s, keys)[k] == CaesarC.ShiftChar(c, key);
    }
  }

  /** The shifts that undo `keys`: `26 - k` for each `k`. */
  function Complement(keys: seq<int>): (inverse: seq<int>)
    requires forall k :: 0 <= k < |keys| ==> 0 <= keys[k] < 26
    ensures |inverse| == |keys|
    ensures forall k :: 0 <= k < |keys| ==> keys[k] + inverse[k] == 26
  {
    seq(|keys|, i requires 0 <= i < |keys| => 26 - keys[i])
  }

  /** Encrypting with the complementary shifts gives the plaintext back. */
  lemma RoundTrip(s: string, keys: seq<int>)
    requires |keys| > 0
    requires forall k :: 0 <= k < |keys| ==> 0 <= keys[k] < 26
    ensures CipherText(CipherText(s, keys), Complement(keys)) == s
  {
    var t := CipherText(s, keys);
    CipherTextKeepsLetters(s, keys);
    forall i | 0 <= i < |s|
      ensures CipherText(t, Complement(keys))[i] == s[i]
    {
      KeyIndexAlike(s, t, i, |keys|);
      var j := KeyIndex(s, i, |keys|);
      var undo := Complement(keys);
      assert t[i] == CaesarC.ShiftChar(s[i], keys[j]);
      assert CipherText(t, undo)[i] == CaesarC.ShiftChar(t[i], undo[j]) && undo[j] == 26 - keys[j];
      CaesarC.RoundTripChar(s[i], keys[j]);
    }
  }

  /** The keyword "a" (or "A") has shift 0 and leaves every message as it is. */
  lemma KeywordAIsIdentity(s: string, keyword: string)
    requires keyword == "a" || keyword == "A"
    ensures CipherText(s, Keys(keyword)) == s
  {
    assert Keys(keyword) == [0];
    forall i | 0 <= i < |s|
      ensures CipherText(s, [0])[i] == s[i]
    {
    }
  }

  /** A one-letter keyword is the Caesar cipher with that letter's shift. */
  lemma OneLetterIsCaesar(s: string, c: char)
    requires IsAlpha(c)
    ensures CipherText(s, Keys([c])) == CaesarC.EncryptText(s, Shift(c))
  {
  }

  /**
   * `encrypt`: the `key[]` array is filled from the keyword, then the
   * message is encrypted in place up to its NUL and each character is
   * printed as it is written (a newline follows). C demands `keylen > 0`:
   * it is the size of the array `key[keylen]` and the divisor of `% keylen`.
   */
  method Encrypt(message: array<char>, keyword: string) returns (printed: string)
    requires '\0' in message[..] && |keyword| > 0
    modifies message
    ensures var n := StrLen(old(message[..]));
      message[..n] == CipherText(old(message[..n]), Keys(keyword)) &&
      message[n..] == old(message[n..]) && printed == message[..n]
  {
    var keylen := |keyword|;
    ghost var text := message[..];
    var key := new int[keylen];
    for i := 0 to keylen
      modifies key
      invariant forall k :: 0 <= k < i ==> key[k] == Shift(keyword[k])
    {
      key[i] := Shift(keyword[i]);
    }
    assert key[..] == Keys(keyword) && message[..] == text;
    printed := EncryptLetters(message, key);
  }

  /** The second loop of `encrypt`, over the `key[]` array already filled. */
  method EncryptLetters(message: array<char>, key: array<int>) returns (printed: string)
    requires '\0' in message[..] && key.Length > 0
    modifies message
    ensures var n := StrLen(old(message[..]));
      message[..n] == CipherText(old(message[..n]), key[..]) &&
      message[n..] == old(message[n..]) && printed == message[..n]
  {
    ghost var n := StrLen(message[..]);
    ghost var s := message[..n];
    printed := EncryptLoop(message, key, n, s, key[..]);
    CipherPrefixIsText(s, key[..], n);
    assert message[..n] == printed;
  }

  /** The loop of `encrypt`: the first `n` characters become the cipher text, which is also printed. */
  method EncryptLoop(message: array<char>, key: array<int>, ghost n: nat, ghost s: string, ghost keys: seq<int>)
      returns (printed: string)
    requires n < message.Length && message[n] == '\0' && s == message[..n] && forall k :: 0 <= k < n ==> s[k] != '\0'
    requires keys == key[..] && |keys| > 0
    modifies message
    ensures printed == CipherPrefix(s, keys, n) && forall k :: 0 <= k < n ==> message[k] == printed[k]
    ensures forall k :: n <= k < message.Length ==> message[k] == old(message[k])
  {
    printed := "";
    var i, j := 0, 0;
    while message[i] != '\0'
      invariant 0 <= i <= n && j == KeyIndex(s, i, |keys|) && printed == CipherPrefix(s, keys, i)
      invariant forall k :: 0 <= k < i ==> message[k] == printed[k]
      invariant forall k :: i <= k < message.Length ==> message[k] == old(message[k])
      decreases n - i
    {
      assert message[i] == s[i];
      CipherStep(s, keys, i, j);
      var c;
      c, j := EncryptAt(message, i, key, j);
      printed := printed + [c];
      i := i + 1;
    }
  }

  /** The body of `encrypt`'s loop: letter `i` shifted by key `j`, which then moves on. */
  method EncryptAt(message: array<char>, i: int, key: array<int>, j: int) returns (c: char, next: int)
    requires 0 <= i < message.Length && 0 <= j < key.Length
    modifies message
    ensures c == if IsAlpha(old(message[i])) then CaesarC.ShiftChar(old(message[i]), key[j]) else old(message[i])
    ensures next == if IsAlpha(old(message[i])) then (j + 1) % key.Length else j
    ensures message[i] == c && forall k :: 0 <= k < message.Length && k != i ==> message[k] == old(message[k])
  {
    c, next := message[i], j;
    if IsAlpha(c) {
      c := CaesarC.ShiftChar(c, key[j]);
      message[i] := c;
      next := (j + 1) % key.Length;
    }
  }

  /** `strncpy(keyword, argv[1], MAX_MESSAGE_SIZE - 1)`: the keyword, cut to the buffer. */
  function Keyword(arg: string): (keyword: string)
    ensures keyword <= arg && |keyword| == if |arg| < CaesarC.MAX_MESSAGE_SIZE - 1 then |arg| else CaesarC.MAX_MESSAGE_SIZE - 1
  {
    if |arg| < CaesarC.MAX_MESSAGE_SIZE - 1 then arg else arg[..CaesarC.MAX_MESSAGE_SIZE - 1]
  }

  /**
   * `main` as written: the argument count, `is_alpha_string`, the keyword
   * copy, `fgets` (which fails on empty input), the newline removal and
   * `encrypt`. `is_alpha_string` accepts the empty keyword, and the run
   * then declares `int key[0]` and divides by zero: `Undefined`.
   */
  method Program(argc: int, arg: string, input: string) returns (out: Outcome)
    requires '\0' !in arg
    ensures argc != 2 ==> out == Usage
    ensures argc == 2 && !AllAlpha(arg) ==> out == BadKeyword
    ensures argc == 2 && AllAlpha(arg) && input == [] ==> out == NoInput
    ensures argc == 2 && AllAlpha(arg) && input != [] && arg == [] ==> out == Undefined
    ensures argc == 2 && AllAlpha(arg) && input != [] && arg != [] ==>
      out == Ciphertext(CipherText(CaesarC.Message(input), Keys(Keyword(arg))))
  {
    if argc != 2 {
      return Usage;
    }
    var alpha := IsAlphaString(arg);
    if !alpha {
      return BadKeyword;
    }
    var keyword := Keyword(arg);
    if input == [] {
      return NoInput;
    }
    if keyword == [] {
      return Undefined;
    }
    out := Run(keyword, input);
  }

  /**
   * `main` as the Python version and the usage line mean it: an empty
   * keyword is refused with the other non-alphabetic ones, so no run is
   * undefined and every run that prints a ciphertext can be decrypted.
   */
  method ProgramChecked(argc: int, arg: string, input: string) returns (out: Outcome)
    requires '\0' !in arg
    ensures argc != 2 ==> out == Usage
    ensures argc == 2 && (arg == [] || !AllAlpha(arg)) ==> out == BadKeyword
    ensures argc == 2 && AllAlpha(arg) && arg != [] && input == [] ==> out == NoInput
    ensures argc == 2 && AllAlpha(arg) && arg != [] && input != [] ==>
      out == Ciphertext(CipherText(CaesarC.Message(input), Keys(Keyword(arg))))
    ensures out != Undefined
    ensures out.Ciphertext? ==> exists keys: seq<int> ::
      (|keys| > 0 && (forall k :: 0 <= k < |keys| ==> 0 <= keys[k] < 26) &&
       CipherText(out.text, Complement(keys)) == CaesarC.Message(input))
  {
    if argc != 2 {
      return Usage;
    }
    var alpha := IsAlphaString(arg);
    if arg == [] || !alpha {
      return BadKeyword;
    }
    var keyword := Keyword(arg);
    if input == [] {
      return NoInput;
    }
    out := Run(keyword, input);
    assert AllAlpha(keyword);
    RoundTrip(CaesarC.Message(input), Keys(keyword));
    assert CipherText(out.text, Complement(Keys(keyword))) == CaesarC.Message(input);
  }

  /** The part of `main` after the keyword checks: the message read, then `encrypt`. */
  method Run(keyword: string, input: string) returns (out: Outcome)
    requires keyword != []
    ensures out == Ciphertext(CipherText(CaesarC.Message(input), Keys(keyword)))
  {
    var message, n := CaesarC.ReadMessage(input);
    var printed := Encrypt(message, keyword);
    out := Ciphertext(printed);
  }

  /** The empty keyword passes `is_alpha_string`, yet `encrypt` needs a keyword of at least one letter. */
  lemma EmptyKeywordAccepted()
    ensures AllAlpha("") && Keyword("") == [] && |Keys(Keyword(""))| == 0
  {
  }
}
