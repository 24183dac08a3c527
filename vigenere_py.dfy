/**
 * The Vigenère cipher of week6/vigenere/vigenere.py: the key must satisfy
 * `str.isalpha`, and the plaintext is encrypted character by character
 * while `key_pos` counts the letters seen.
 */
module VigenerePy {
  import opened Ascii
  import CaesarPy
  import VigenereC

  /** `str.isalpha` on ASCII: at least one character, and all of them letters. */
  predicate IsAlphaKey(key: string)
  {
    |key| > 0 && VigenereC.AllAlpha(key)
  }

  /** `ord(k.upper()) - ord('A')`: the place in the alphabet of a key letter of either case. */
  function KeyShift(k: char): (r: int)
    ensures IsAlpha(k) ==> 0 <= r < 26 && ToLower(k) as int == 'a' as int + r
  {
    ToUpper(k) as int - 'A' as int
  }

  /**
   * The ciphertext: a letter goes through the rule of the Caesar program
   * with the shift of key letter `key_pos % len(key)`, `key_pos` being the
   * number of letters before it; other characters are printed as they are.
   */
  function CipherText(s: string, key: string): (r: string)
    requires |key| > 0
    ensures |r| == |s|
  {
    seq(|s|, i requires 0 <= i < |s| =>
      if IsAlpha(s[i]) then CaesarPy.ShiftChar(s[i], KeyShift(key[VigenereC.LetterCount(s, i) % |key|])) else s[i])
  }

  /** The `for c in plaintext` loop, with the characters it prints gathered into `ciphertext`. */
  method Cipher(plaintext: string, key: string) returns (ciphertext: string)
    requires |key| > 0
    ensures ciphertext == CipherText(plaintext, key)
  {
    ghost var want := CipherText(plaintext, key);
    ciphertext := "";
    var keyPos := 0;
    for i := 0 to |plaintext|
      invariant keyPos == VigenereC.LetterCount(plaintext, i)
      invariant |ciphertext| == i && forall k :: 0 <= k < i ==> ciphertext[k] == want[k]
    {
      var c := plaintext[i];
      if IsAlpha(c) {
        var shift := ToUpper(key[keyPos % |key|]) as int - 'A' as int;
        assert want[i] == CaesarPy.ShiftChar(c, shift);
        if IsUpper(c) {
          ciphertext := ciphertext + [((c as int - 'A' as int + shift) % 26 + 'A' as int) as char];
        } else {
          ciphertext := ciphertext + [((c as int - 'a' as int + shift) % 26 + 'a' as int) as char];
        }
        keyPos := keyPos + 1;
      } else {
        assert want[i] == c;
        ciphertext := ciphertext + [c];
      }
    }
  }

  /**
   * `main`: two arguments, a key that `isalpha` accepts (so not empty), and
   * the ciphertext of the line read.
   */
  method Program(argc: int, key: string, plaintext: string) returns (out: VigenereC.Outcome)
    ensures argc != 2 ==> out == VigenereC.Usage
    ensures argc == 2 && !IsAlphaKey(key) ==> out == VigenereC.BadKeyword
    ensures argc == 2 && IsAlphaKey(key) ==> out == VigenereC.Ciphertext(CipherText(plaintext, key))
  {
    if argc != 2 {
      return VigenereC.Usage;
    }
    if !(|key| > 0 && VigenereC.AllAlpha(key)) {
      return VigenereC.BadKeyword;
    }
    var ciphertext := Cipher(plaintext, key);
    out := VigenereC.Ciphertext(ciphertext);
  }

  /**
   * One character out per character in: a letter keeps its case and moves
   * `KeyShift` places round its alphabet, anything else is unchanged.
   */
  lemma CipherTextLetters(s: string, key: string, i: int)
    requires |key| > 0 && 0 <= i < |s|
    ensures !IsAlpha(s[i]) ==> CipherText(s, key)[i] == s[i]
    ensures IsUpper(s[i]) ==> (IsUpper(CipherText(s, key)[i]) &&
      CipherText(s, key)[i] as int - 'A' as int ==
      (s[i] as int - 'A' as int + KeyShift(key[VigenereC.LetterCount(s, i) % |key|])) % 26)
    ensures IsLower(s[i]) ==> (IsLower(CipherText(s, key)[i]) &&
      CipherText(s, key)[i] as int - 'a' as int ==
      (s[i] as int - 'a' as int + KeyShift(key[VigenereC.LetterCount(s, i) % |key|])) % 26)
  {
    var shift := KeyShift(key[VigenereC.LetterCount(s, i) % |key|]);
    assert CipherText(s, key)[i] == if IsAlpha(s[i]) then CaesarPy.ShiftChar(s[i], shift) else s[i];
  }

  /** The case of the key does not matter. */
  lemma KeyCaseIrrelevant(s: string, key: string)
    requires |key| > 0
    ensures CipherText(s, Lower(key)) == CipherText(s, key)
  {
    forall i | 0 <= i < |s| && IsAlpha(s[i])
      ensures CipherText(s, Lower(key))[i] == CipherText(s, key)[i]
    {
      var p := VigenereC.LetterCount(s, i) % |key|;
      var k := key[p];
      assert Lower(key)[p] == ToLower(k);
      UpperOfLower(k);
      assert CipherText(s, key)[i] == CaesarPy.ShiftChar(s[i], KeyShift(k));
      assert CipherText(s, Lower(key))[i] == CaesarPy.ShiftChar(s[i], KeyShift(ToLower(k)));
    }
  }

  /** For every key both programs accept, the Python program prints what the C program prints. */
  lemma AgreesWithC(s: string, key: string)
    requires IsAlphaKey(key)
    ensures CipherText(s, key) == VigenereC.CipherText(s, VigenereC.Keys(key))
  {
    var keys := VigenereC.Keys(key);
    forall i | 0 <= i < |s|
      ensures CipherText(s, key)[i] == VigenereC.CipherText(s, keys)[i]
    {
      VigenereC.KeyIndexCountsLetters(s, i, |key|);
      var k := key[VigenereC.LetterCount(s, i) % |key|];
      assert KeyShift(k) == VigenereC.Shift(k);
      CaesarPy.AgreesWithCChar(s[i], KeyShift(k));
    }
  }
}
