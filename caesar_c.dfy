/**
 * The Caesar cipher of week2/caesar/caesar.c: `encrypt` shifts every
 * letter of a NUL-terminated buffer in place, and `main` reads the key,
 * reduces it with C's `%`, reads one line and prints its encryption.
 */
module CaesarC {
  import opened Basics
  import opened Ascii

  /** `MAX_MESSAGE_SIZE`: the size of the buffer `fgets` fills. */
  const MAX_MESSAGE_SIZE: nat := 1000

  /** How a run of the program ends: a usage error, a key error, or the printed ciphertext. */
  datatype Outcome = Usage | BadKey | Ciphertext(text: string)

  /**
   * What `encrypt` does to one character: a letter becomes its base plus
   * `(c - base + key) % 26` under C's truncating `%`; anything else is kept.
   * With a key that is not negative a letter stays a letter of the same
   * case, shifted `key` places round its alphabet.
   */
  function ShiftChar(c: char, key: int): (d: char)
    ensures !IsAlpha(c) ==> d == c
    ensures 0 <= key && IsUpper(c) ==> IsUpper(d) && d as int - 'A' as int == (c as int - 'A' as int + key) % 26
    ensures 0 <= key && IsLower(c) ==> IsLower(d) && d as int - 'a' as int == (c as int - 'a' as int + key) % 26
    ensures c != '\0' ==> d != '\0'
  {
    if IsAlpha(c) then
      var base := if IsUpper(c) then 'A' else 'a';
      (base as int + CRem(c as int - base as int + key, 26)) as char
    else
      c
  }

  /** The text `encrypt` leaves in place of `s`, character by character. */
  function EncryptText(s: string, key: int): (r: string)
    ensures |r| == |s|
    ensures forall i :: 0 <= i < |s| && !IsAlpha(s[i]) ==> r[i] == s[i]
    ensures 0 <= key ==> forall i :: 0 <= i < |s| && IsAlpha(s[i]) ==> IsAlpha(r[i])
  {
    seq(|s|, i requires 0 <= i < |s| => ShiftChar(s[i], key))
  }

  /**
   * `encrypt`: the characters before the first NUL are shifted in place and
   * the NUL and everything after it are left alone.
   */
  method Encrypt(message: array<char>, key: int)
    requires '\0' in message[..]
    modifies message
    ensures var n := StrLen(old(message[..]));
      message[..n] == EncryptText(old(message[..n]), key) && message[n..] == old(message[n..])
  {
    ghost var n := StrLen(message[..]);
    var i := 0;
    while message[i] != '\0'
      invariant 0 <= i <= n
      invariant forall k :: 0 <= k < i ==> message[k] == ShiftChar(old(message[k]), key)
      invariant forall k :: i <= k < message.Length ==> message[k] == old(message[k])
      decreases n - i
    {
      if IsAlpha(message[i]) {
        var base := if IsUpper(message[i]) then 'A' else 'a';
        message[i] := (base as int + CRem(message[i] as int - base as int + key, 26)) as char;
      }
      i := i + 1;
    }
  }

  /**
   * `fgets(buffer, size, stdin)`: at most `size - 1` characters, up to and
   * including the first newline; it stops early only at a newline or at the
   * end of the input.
   */
  function Fgets(input: string, size: nat): (line: string)
    requires size > 0
    ensures |line| <= size - 1 && line <= input
    ensures forall i :: 0 <= i < |line| - 1 ==> line[i] != '\n'
    ensures |line| < |input| && |line| < size - 1 ==> line != [] && line[|line| - 1] == '\n'
  {
    if size == 1 || input == [] then []
    else if input[0] == '\n' then ['\n']
    else [input[0]] + Fgets(input[1..], size - 1)
  }

  /** The C string held by `line` followed by a NUL: everything before its first NUL. */
  function CString(line: string): (s: string)
    ensures s <= line && '\0' !in s
    ensures |s| < |line| ==> line[|s|] == '\0'
  {
    var n := StrLen(line + ['\0']);
    assert forall i :: 0 <= i < n ==> (line + ['\0'])[i] == line[i];
    line[..n]
  }

  /** The message `main` encrypts: the line read, as a C string, without its final newline. */
  function Message(input: string): (m: string)
    ensures '\0' !in m
  {
    var s := CString(Fgets(input, MAX_MESSAGE_SIZE));
    if |s| > 0 && s[|s| - 1] == '\n' then s[..|s| - 1] else s
  }

  /** A NUL at `n` with none before it makes `n` the length of the C string. */
  lemma {:induction false} StrLenAt(s: seq<char>, n: nat)
    requires n < |s| && s[n] == '\0'
    requires forall i :: 0 <= i < n ==> s[i] != '\0'
    ensures StrLen(s) == n
  {
    if n > 0 {
      StrLenAt(s[1..], n - 1);
    }
  }

  /**
   * The reading half of `main`: `fgets` into a buffer, then the newline
   * found at `strlen - 1` overwritten by a NUL. The buffer holds the message
   * as a C string of length `n`.
   */
  method ReadMessage(input: string) returns (message: array<char>, n: nat)
    ensures fresh(message) && n < message.Length && message[n] == '\0'
    ensures message[..n] == Message(input) && StrLen(message[..]) == n
  {
    var line := Fgets(input, MAX_MESSAGE_SIZE);
    message := new char[|line| + 1](i requires 0 <= i <= |line| => if i < |line| then line[i] else '\0');
    assert message[..] == line + ['\0'];
    n := StrLen(message[..]);
    assert message[..n] == CString(line);
    if n > 0 && message[n - 1] == '\n' {
      message[n - 1] := '\0';
      n := n - 1;
      StrLenAt(message[..], n);
    }
  }

  /**
   * The part of `main` after the key: the message read, `encrypt`, and
   * `printf("%s")` of the buffer, which stops at its first NUL.
   */
  method Run(key: int, input: string) returns (text: string)
    ensures text == EncryptText(Message(input), key)
  {
    var message, n := ReadMessage(input);
    Encrypt(message, key);
    StrLenAt(message[..], n);
    text := message[..StrLen(message[..])];
  }

  /**
   * `main` as written: two arguments, a key `sscanf` can read (`None` when
   * it cannot), the key reduced to `key % 26` with C's `%`, then `Run`.
   */
  method Program(argc: int, key: Option<int>, input: string) returns (out: Outcome)
    ensures argc != 2 ==> out == Usage
    ensures argc == 2 && key.None? ==> out == BadKey
    ensures argc == 2 && key.Some? ==> out == Ciphertext(EncryptText(Message(input), CRem(key.value, 26)))
  {
    if argc != 2 {
      return Usage;
    }
    if key.None? {
      return BadKey;
    }
    var k := CRem(key.value, 26);
    var text := Run(k, input);
    out := Ciphertext(text);
  }

  /**
   * `main` as its error message ("Key must be a positive integer") and the
   * Python version mean it: a negative key is refused, so every letter of
   * the message comes out a letter of the same case and nothing else changes.
   */
  method ProgramChecked(argc: int, key: Option<int>, input: string) returns (out: Outcome)
    ensures argc != 2 ==> out == Usage
    ensures argc == 2 && (key.None? || key.value < 0) ==> out == BadKey
    ensures argc == 2 && key.Some? && 0 <= key.value ==> out == Ciphertext(EncryptText(Message(input), key.value))
    ensures out.Ciphertext? ==> key.Some? && 0 <= key.value && |out.text| == |Message(input)|
    ensures out.Ciphertext? ==> forall i :: 0 <= i < |out.text| ==>
      (IsUpper(out.text[i]) <==> IsUpper(Message(input)[i])) &&
      (IsLower(out.text[i]) <==> IsLower(Message(input)[i])) &&
      (!IsAlpha(Message(input)[i]) ==> out.text[i] == Message(input)[i])
    ensures out.Ciphertext? ==> EncryptText(out.text, 26 - key.value % 26) == Message(input)
  {
    if argc != 2 {
      return Usage;
    }
    if key.None? || key.value < 0 {
      return BadKey;
    }
    var k := key.value % 26;
    var text := Run(k, input);
    RoundTrip(Message(input), k);
    ReduceKey(Message(input), key.value);
    out := Ciphertext(text);
  }

  /** Shifting a letter by `k` and then by `26 - k` brings it back. */
  lemma RoundTripChar(c: char, k: int)
    requires 0 <= k < 26
    ensures ShiftChar(ShiftChar(c, k), 26 - k) == c
  {
    if IsAlpha(c) {
      var base := if IsUpper(c) then 'A' else 'a';
      var x := c as int - base as int;
      var y := ShiftChar(c, k) as int - base as int;
      assert y == (x + k) % 26;
      if x + k < 26 {
        assert y == x + k;
      } else {
        assert y == x + k - 26;
      }
    }
  }

  /** Decrypting with the complementary key `26 - k` gives the plaintext back. */
  lemma RoundTrip(s: string, k: int)
    requires 0 <= k < 26
    ensures EncryptText(EncryptText(s, k), 26 - k) == s
  {
    forall i | 0 <= i < |s|
      ensures EncryptText(EncryptText(s, k), 26 - k)[i] == s[i]
    {
      RoundTripChar(s[i], k);
    }
  }

  /** Adding a multiple of 26 does not change a remainder modulo 26. */
  lemma {:induction false} ModShift(y: int, q: int)
    ensures (y + 26 * q) % 26 == y % 26
    decreases if q < 0 then -q else q
  {
    if q > 0 {
      ModShift(y, q - 1);
      assert y + 26 * q == (y + 26 * (q - 1)) + 26;
    } else if q < 0 {
      ModShift(y, q + 1);
      assert y + 26 * q == (y + 26 * (q + 1)) - 26;
    }
  }

  /** For a key that is not negative, the reduction `key % 26` in `main` does not change a character's encryption. */
  lemma ReduceKeyChar(c: char, key: int)
    requires 0 <= key
    ensures ShiftChar(c, key % 26) == ShiftChar(c, key)
  {
    if IsAlpha(c) {
      var base := if IsUpper(c) then 'A' else 'a';
      var x := c as int - base as int;
      ModShift(x + key % 26, key / 26);
      assert x + key == x + key % 26 + 26 * (key / 26);
    }
  }

  /** For a key that is not negative, encrypting with `key % 26` is encrypting with `key`. */
  lemma ReduceKey(s: string, key: int)
    requires 0 <= key
    ensures EncryptText(s, key % 26) == EncryptText(s, key)
  {
    forall i | 0 <= i < |s|
      ensures EncryptText(s, key % 26)[i] == EncryptText(s, key)[i]
    {
      ReduceKeyChar(s[i], key);
    }
  }

  /**
   * The key -1 passes `main` unchanged (C's `-1 % 26` is -1), and `encrypt`
   * then turns 'a' into '`', which is not a letter.
   */
  lemma NegativeKeyLeavesAlphabet()
    ensures CRem(-1, 26) == -1
    ensures ShiftChar('a', CRem(-1, 26)) == '`' && !IsAlpha('`')
    ensures EncryptText("abc", CRem(-1, 26)) == "`ab"
  {
    assert EncryptText("abc", -1)[0] == '`';
    assert EncryptText("abc", -1)[1] == 'a';
    assert EncryptText("abc", -1)[2] == 'b';
  }
}
