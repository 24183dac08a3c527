/**
 * The Caesar cipher of week6/caesar/caesar.py: the key must parse as an
 * integer that is not negative, and every letter of the plaintext is
 * shifted with Python's `%`, which floors (for the divisor 26 it is
 * Dafny's Euclidean `%`).
 */
module CaesarPy {
  import opened Basics
  import opened Ascii
  import CaesarC

  /**
   * One step of the loop: an uppercase letter becomes
   * `chr((ord(c) - 65 + key) % 26 + 65)`, a lowercase one the same with 97,
   * anything else is kept. A letter stays a letter of the same case for
   * every key.
   */
  function ShiftChar(c: char, key: int): (d: char)
    ensures IsUpper(c) ==> IsUpper(d) && d as int - 'A' as int == (c as int - 'A' as int + key) % 26
    ensures IsLower(c) ==> IsLower(d) && d as int - 'a' as int == (c as int - 'a' as int + key) % 26
    ensures !IsAlpha(c) ==> d == c
  {
    if IsUpper(c) then ((c as int - 65 + key) % 26 + 65) as char
    else if IsLower(c) then ((c as int - 97 + key) % 26 + 97) as char
    else c
  }

  /**
   * The ciphertext of `s`: character `i` is `ShiftChar(s[i], key)`. Python's
   * floored `%` gives what C's `%` gives once the key is reduced into
   * `0..25`, so the text is that of the C program's `encrypt` with the
   * reduced key.
   */
  function CipherText(s: string, key: int): (r: string)
    ensures |r| == |s|
    ensures forall i :: 0 <= i < |s| ==> r[i] == ShiftChar(s[i], key)
  {
    ReducedKeyText(s, key);
    CaesarC.EncryptText(s, key % 26)
  }

  /** The Python rule with any key is the C rule with the key reduced into `0..25`. */
  lemma ReducedKeyChar(c: char, key: int)
    ensures ShiftChar(c, key) == CaesarC.ShiftChar(c, key % 26)
  {
    if IsAlpha(c) {
      var x := c as int - (if IsUpper(c) then 'A' else 'a') as int;
      assert x + key == (x + key % 26) + 26 * (key / 26);
      CaesarC.ModShift(x + key % 26, key / 26);
    }
  }

  /** Encrypting with the reduced key under C's rule shifts each character by Python's rule. */
  lemma ReducedKeyText(s: string, key: int)
    ensures forall i :: 0 <= i < |s| ==> CaesarC.EncryptText(s, key % 26)[i] == ShiftChar(s[i], key)
  {
    forall i | 0 <= i < |s|
      ensures CaesarC.EncryptText(s, key % 26)[i] == ShiftChar(s[i], key)
    {
      ReducedKeyChar(s[i], key);
    }
  }

  /** The `for char in plaintext` loop that appends to `ciphertext`. */
  method Cipher(plaintext: string, key: int) returns (ciphertext: string)
    ensures ciphertext == CipherText(plaintext, key)
  {
    ciphertext := "";
    for i := 0 to |plaintext|
      invariant |ciphertext| == i
      invariant forall k :: 0 <= k < i ==> ciphertext[k] == ShiftChar(plaintext[k], key)
    {
      var c := plaintext[i];
      if IsUpper(c) {
        var newChar := ((c as int - 65 + key) % 26 + 65) as char;
        ciphertext := ciphertext + [newChar];
      } else if IsLower(c) {
        var newChar := ((c as int - 97 + key) % 26 + 97) as char;
        ciphertext := ciphertext + [newChar];
      } else {
        ciphertext := ciphertext + [c];
      }
    }
  }

  /**
   * `main`: two arguments, a key that `int()` accepts (`None` when it raises)
   * and that is not negative, then the ciphertext of the plaintext line.
   */
  method Program(argc: int, key: Option<int>, plaintext: string) returns (out: CaesarC.Outcome)
    ensures argc != 2 ==> out == CaesarC.Usage
    ensures argc == 2 && (key.None? || key.value < 0) ==> out == CaesarC.BadKey
    ensures argc == 2 && key.Some? && 0 <= key.value ==> out == CaesarC.Ciphertext(CipherText(plaintext, key.value))
  {
    if argc != 2 {
      return CaesarC.Usage;
    }
    if key.None? || key.value < 0 {
      return CaesarC.BadKey;
    }
    var ciphertext := Cipher(plaintext, key.value);
    out := CaesarC.Ciphertext(ciphertext);
  }

  /** Shifting by `key` and then by `-key` gives a character back, for every key. */
  lemma RoundTripChar(c: char, key: int)
    ensures ShiftChar(ShiftChar(c, key), -key) == c
  {
    if IsAlpha(c) {
      var base := if IsUpper(c) then 'A' else 'a';
      ModUndo(c as int - base as int, key);
    }
  }

  /** Floored `%` by 26 undoes a shift: `((x + key) % 26 - key) % 26 == x` for a letter offset `x`. */
  lemma ModUndo(x: int, key: int)
    requires 0 <= x < 26
    ensures ((x + key) % 26 - key) % 26 == x
  {
    var q := (x + key) / 26;
    assert (x + key) % 26 - key == x + 26 * (-q);
    CaesarC.ModShift(x, -q);
  }

  /** Decrypting with `-key` gives the plaintext back, for every key. */
  lemma RoundTrip(s: string, key: int)
    ensures CipherText(CipherText(s, key), -key) == s
  {
    forall i | 0 <= i < |s|
      ensures CipherText(CipherText(s, key), -key)[i] == s[i]
    {
      RoundTripChar(s[i], key);
    }
  }

  /** Keys that differ by a multiple of 26 give the same ciphertext. */
  lemma KeyPeriod(s: string, key: int, q: int)
    ensures CipherText(s, key + 26 * q) == CipherText(s, key)
  {
    forall i | 0 <= i < |s| && IsAlpha(s[i])
      ensures CipherText(s, key + 26 * q)[i] == CipherText(s, key)[i]
    {
      var base := if IsUpper(s[i]) then 'A' else 'a';
      CaesarC.ModShift(s[i] as int - base as int + key, q);
      assert s[i] as int - base as int + (key + 26 * q) == (s[i] as int - base as int + key) + 26 * q;
    }
  }

  /**
   * For the keys both programs accept, the Python program prints what the C
   * program prints: the C rule with the full key, and with the key reduced
   * by C's `%` as the C `main` does.
   */
  lemma AgreesWithC(s: string, key: int)
    requires 0 <= key
    ensures CaesarC.EncryptText(s, key) == CipherText(s, key)
    ensures CaesarC.EncryptText(s, CRem(key, 26)) == CipherText(s, key)
  {
    forall i | 0 <= i < |s|
      ensures CaesarC.EncryptText(s, key)[i] == CipherText(s, key)[i]
    {
      AgreesWithCChar(s[i], key);
    }
    CaesarC.ReduceKey(s, key);
  }

  /** The Python and C rules shift a character alike when the key is not negative. */
  lemma AgreesWithCChar(c: char, key: int)
    requires 0 <= key
    ensures CaesarC.ShiftChar(c, key) == ShiftChar(c, key)
  {
    var d, e := CaesarC.ShiftChar(c, key), ShiftChar(c, key);
    assert d as int == e as int;
  }
}
