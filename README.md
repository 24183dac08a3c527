# CS50x exercise solutions, modelled in Dafny

This project models the programs of a set of CS50x exercise solutions written in C and Python.
There is one Dafny module per program, and each module states and proves what that program promises.
The C programs that work in place stay imperative: methods with loops over arrays, and classes whose fields are updated through heap pointers.
The pure computations are functions, and lemmas tie each method to the function that specifies it.

| module | program | what is modelled |
|---|---|---|
| `CashC`, `CashPy` | week1/cash/cash.c, week6/cash/cash.py | greedy change-making in quarters, dimes, nickels and pennies; C's `/` and `%` against Python's; the coin count proved minimal; the two rounding rules |
| `CreditC`, `CreditPy` | week1/credit/credit.c, week6/credit/credit.py | the Luhn checksum and the card type from length and leading digits; the Python string version agrees with the C arithmetic version |
| `CaesarC`, `CaesarPy` | week2/caesar/caesar.c, week6/caesar/caesar.py | the Caesar shift, in place on a NUL-terminated buffer in C and on strings in Python; round trips and key periodicity |
| `VigenereC`, `VigenerePy` | week2/vigenere/vigenere.c, week6/vigenere/vigenere.py | the Vigenère cipher whose key advances on letters only; round trip; agreement of the two versions and with Caesar for a one-letter key |
| `LinearSearch`, `BinarySearch` | week2/linear_search, week2/binary_search | the two searches over `int` arrays, with their demonstration programs |
| `SortSpec`, `BubbleSort`, `SelectionSort`, `InsertionSort`, `MergeSort` | week2/*_sort | the four in-place sorts, each proved to produce a sorted permutation of its input |
| `Bmp`, `Whodunit`, `Resize` | week3/Whodunit/whodunit.c, week3/resize/resize.c | 24-bit BMP scanlines with their padding; the whodunit colour filter; enlargement by a factor from 1 to 100 with the new headers |
| `Recover` | week3/recover/recover.c | carving JPEG files out of 512-byte blocks of a card image, and the `###.jpg` file names |
| `Dictionaries` | week4/speller/dictionary.c | the speller's 26-bucket dictionary: load, size, case-insensitive check, unload |
| `HashLayout`, `HashTables` | week4/hash_tables/hash_tables.c | the chained hash table with DJB2 hashing, growth and shrinking by load factor, insert, update, search and delete |
| `SinglyLinkedLists` | week4/singly_linked_list/singly_linked_list.c | the singly linked list of heap nodes with positional and value-based insertion and deletion |
| `Tries` | week4/tries/tries.c | the fixed-depth tree of university names: insertion into a numbered slot, preorder search, deletion |
| `Bleep` | week6/bleep/bleep.py | censoring the banned words of a message |
| `Basics`, `Ascii` | shared | `Option`, bytes, C's truncating `/` and `%`, `strlen`, and the ASCII character classes and case mappings |

Input and output are parameters: lines typed, command-line arguments, file contents as byte or word sequences, and whether an allocation fails.
Each `Program` returns what the program prints, writes or exits with.

## Model

| member | source | states |
|---|---|---|
| CashC.CoinCounts | week1/cash/cash.c:61-66 | one count per denomination |
| CashC.CDivRem | week1/cash/cash.c:64-65 | C's truncating `/` and `%` by a positive divisor recompose the dividend |
| CashC.GreedyPays | week1/cash/cash.c:62-66 | for any amount, negative ones too, the coins taken are worth the amount less what the loop leaves |
| CashC.GreedyStep | week1/cash/cash.c:64-65 | for an amount that is not negative, one turn of the loop takes `cents / d` coins and goes on with `cents % d` |
| CashC.PenniesLeft | week1/cash/cash.c:62-66 | taking away quarters and dimes keeps the amount's remainder modulo 5 |
| CashC.ChangeClosedForm | week1/cash/cash.c:57-68 | for an amount that is not negative the loop leaves nothing, the coins are worth exactly the amount, and their number has the closed form `c/25 + (c%25)/10 + (c%25%10)/5 + c%5` |
| CashC.ChangeIsMinimal | week1/cash/cash.c:57-68 | any quarters, dimes, nickels and pennies worth the amount are at least as many coins as the greedy count |
| CashC.SmallChange | week1/cash/cash.c:62-66 | coins that cannot be traded for fewer are exactly the greedy count |
| CashC.ChangeCount | week1/cash/cash.c:57-68 | for an amount that is not negative the count printed is the closed form `c/25 + (c%25)/10 + (c%25%10)/5 + c%5` |
| CashC.CalculateChange | week1/cash/cash.c:60-67 | the loop's count is the greedy count of the amount |
| CashC.Round | week1/cash/cash.c:59 | `round` gives an integer within half of its argument, halfway cases away from zero |
| CashC.Program | week1/cash/cash.c:30-51 | no result when no amount typed is positive; otherwise the result is the greedy count of the first positive amount in cents, rounded, and it is not negative |
| CashC.DocumentedExample | week1/cash/cash.c:59-67 | 0.41 dollars are 41 cents, changed with 4 coins |
| CashPy.Counts | week6/cash/cash.py:58-60 | one count per denomination |
| CashPy.CalculateMinCoins | week6/cash/cash.py:45-62 | the result is the sum of the counts the loop takes, one denomination after the other |
| CashPy.MinCoinsPays | week6/cash/cash.py:58-60 | the coins taken are worth the amount less what is left |
| CashPy.MinCoinsNonNegative | week6/cash/cash.py:45-62 | for an amount that is not negative every count and the total are not negative, and an amount of 0 takes no coin |
| CashPy.FloorNonNegative | week6/cash/cash.py:59-60 | floor division of an amount that is not negative by a positive coin gives a quotient that is not negative and a remainder below the coin |
| CashPy.NothingLeft | week6/cash/cash.py:10 | the denominations end with the penny, so nothing is left and the coins are worth the amount |
| CashPy.AgreesWithC | week6/cash/cash.py:58-60 | for an amount that is not negative the Python loop takes, denomination by denomination, the coins of the C loop |
| CashPy.MinCoinsIsMinimal | week6/cash/cash.py:45-55 | as the doc comment promises, the result is the fewest coins worth the amount |
| CashPy.RoundHalfEven | week6/cash/cash.py:21 | `round` gives an integer within half of its argument, halfway cases to the even one |
| CashPy.Program | week6/cash/cash.py:13-42 | no result when no amount typed is positive; otherwise the greedy count of the first positive amount in cents, rounded half to even, which is not negative |
| CashPy.RoundingDiffers | week6/cash/cash.py:21 | 0.125 dollars are 13 cents and 4 coins with C's `round`, and 12 cents and 3 coins with Python's |
| CreditC.Doubled | week1/credit/credit.c:54-55 | a doubled digit, less 9 when above 9, is again a digit |
| CreditC.DoubledIsDigitSum | week1/credit/credit.c:54-55 | subtracting 9 from a two-digit double is adding its two decimal digits |
| CreditC.Digits | week1/credit/credit.c:48-64 | the digits the loop takes from the right are decimal digits |
| CreditC.LuhnSumOfDigits | week1/credit/credit.c:44-64 | the loop's sum is the sum over the digits, rightmost first, with every second one doubled |
| CreditC.LuhnAlgorithm | week1/credit/credit.c:42-67 | the number passes exactly when the sum of its digits, rightmost first and every second one doubled, is a multiple of 10 |
| CreditC.NumDigits | week1/credit/credit.c:72-78 | the length counted is the number of decimal digits |
| CreditC.NumDigitsBounds | week1/credit/credit.c:72-78 | a positive number of length `k` lies between `10^(k-1)` and `10^k` |
| CreditC.LeadingTwo | week1/credit/credit.c:81-86 | dividing by 10 while at least 100 leaves a number below 100 alone, and brings one of two or more digits to two digits |
| CreditC.LeadingTwoIsPrefix | week1/credit/credit.c:81-86 | for a number of two or more digits the result is its two leading digits: the number lies between it and it plus one, times `10^(length-2)` |
| CreditC.TypeOf | week1/credit/credit.c:90-105 | AMEX only at 15 digits, MASTERCARD only at 16, VISA only at 13 or 16 |
| CreditC.TypeOfIff | week1/credit/credit.c:90-105 | each card type is printed exactly when its own condition on length and leading digits holds (AMEX 15 and 34 or 37, MASTERCARD 16 and 51-55, VISA 13 or 16 and a leading 4), never DISCOVER |
| CreditC.DetermineCardType | week1/credit/credit.c:69-106 | the type is the chain's verdict on the number's length and two leading digits |
| CreditC.Program | week1/credit/credit.c:21-39 | no verdict when no number typed is positive; otherwise the verdict for the first positive one: its type when the checksum passes, else INVALID |
| CreditC.LuhnStep | week1/credit/credit.c:48-64 | one turn of the loop adds the last digit's term and goes on with the rest, the doubling flag flipped |
| CreditC.AmexExampleSum | week1/credit/credit.c:11-13 | the Luhn sum of 378282246310005 is 60 |
| CreditC.AmexExampleLength | week1/credit/credit.c:11-13 | 378282246310005 has 15 digits |
| CreditC.AmexExamplePrefix | week1/credit/credit.c:11-13 | 378282246310005 starts with 37 |
| CreditC.AmexExample | week1/credit/credit.c:11-13 | 378282246310005 is printed as AMEX |
| CreditPy.CheckLength | week6/credit/credit.py:7-11 | true exactly for 13 to 16 characters, which is enough for `check_prefix` to index `s[0]` and, after a 3, `s[1]` |
| CreditPy.CheckPrefix | week6/credit/credit.py:14-20 | accepts only a leading 3, 4, 5 or 6, and after a leading 3 only a 7 (34 is refused) |
| CreditPy.CheckCardType | week6/credit/credit.py:41-54 | `check_card_type` names a type exactly when `check_prefix` accepts, VISA for a leading 4, MASTERCARD for 5, DISCOVER for 6, AMEX for 37, and never INVALID |
| CreditPy.DigitValues | week6/credit/credit.py:25 | `int(i)` of each character is its digit value |
| CreditPy.Reversed | week6/credit/credit.py:27 | the reversed list holds element `n-1-i` at `i` |
| CreditPy.LuhnTermsCons | week6/credit/credit.py:29-33 | the doubled list starts with its first digit's term and goes on as the rest's list with the parities swapped |
| CreditPy.SumOfLuhnTerms | week6/credit/credit.py:29-35 | the sum of the doubled list is the Luhn sum of the digits, every second one doubled |
| CreditPy.Reverse | week6/credit/credit.py:27 | the list afterwards is the old list reversed |
| CreditPy.DoubleSecondDigits | week6/credit/credit.py:29-33 | every digit at an odd index is doubled, less 9 above 9, and the others are kept |
| CreditPy.IntList | week6/credit/credit.py:25 | a fresh list of the digit values, built exactly when every character is a digit (otherwise `int()` raises) |
| CreditPy.SumList | week6/credit/credit.py:35 | the total is the sum of the list |
| CreditPy.CheckLuhn | week6/credit/credit.py:23-39 | `ValueError` exactly when a character is not a digit; otherwise true exactly when the Luhn sum of the reversed digits is a multiple of 10 |
| CreditPy.Program | week6/credit/credit.py:57-69 | INVALID when the length or the prefix check fails; `ValueError` exactly when both pass and a character is not a digit; otherwise the type when the checksum passes, else INVALID |
| CreditPy.DecimalString | week6/credit/credit.py:59 | the decimal string of a positive number is made of digits and has no leading zero |
| CreditPy.ReversedDigitsOfDecimal | week6/credit/credit.py:25-27 | the reversed digit values of `str(n)` are the digits credit.c peels off `n` with `% 10` |
| CreditPy.ReversedSnoc | week6/credit/credit.py:25-27 | a digit appended to a string comes first once the digit values are reversed |
| CreditPy.LuhnAgreesWithC | week6/credit/credit.py:23-39 | on the decimal string of a positive number `check_luhn` succeeds, computes credit.c's Luhn sum, and the length it checks is credit.c's length |
| CaesarC.ShiftChar | week2/caesar/caesar.c:77-81 | a non-letter is kept; with a key that is not negative a letter stays a letter of the same case, `key` places further round its alphabet; a non-NUL character never becomes NUL |
| CaesarC.EncryptText | week2/caesar/caesar.c:73-83 | as long as the message; non-letters unchanged; with a key that is not negative every letter stays a letter |
| CaesarC.Encrypt | week2/caesar/caesar.c:73-83 | the characters before the first NUL are replaced by their encryptions; the NUL and everything after it are unchanged |
| CaesarC.Fgets | week2/caesar/caesar.c:51 | the line read is a prefix of the input of at most `size - 1` characters; a newline can only be its last character, and is, when the line stops early before the buffer fills |
| CaesarC.CString | week2/caesar/caesar.c:54 | the C string is the prefix of the buffer before its first NUL, and holds no NUL |
| CaesarC.ReadMessage | week2/caesar/caesar.c:51-57 | the fresh buffer holds the message as a NUL-terminated string, newline removed, and `strlen` of the buffer is its length |
| CaesarC.Run | week2/caesar/caesar.c:51-62 | the text printed is the encryption of the message read |
| CaesarC.Program | week2/caesar/caesar.c:27-66 | a wrong argument count gives the usage error and an unreadable key the key error; otherwise the printed text is the message encrypted with `key % 26` under C's truncating `%` |
| CaesarC.ProgramChecked | week2/caesar/caesar.c:39-47 | as `Program`, but a negative key is refused; then every letter stays a letter of the same case, other characters are unchanged, and decrypting with `26 - key % 26` gives the message back |
| CaesarC.RoundTripChar | week2/caesar/caesar.c:80 | for `0 <= k < 26`, shifting a character by `k` and then by `26 - k` gives it back |
| CaesarC.RoundTrip | week2/caesar/caesar.c:73-83 | for `0 <= k < 26`, encrypting with `26 - k` undoes encrypting with `k` |
| CaesarC.ReduceKeyChar | week2/caesar/caesar.c:47 | for a key that is not negative, reducing it modulo 26 does not change any character's encryption |
| CaesarC.ReduceKey | week2/caesar/caesar.c:47 | for a key that is not negative, encrypting with `key % 26` equals encrypting with `key` |
| CaesarC.NegativeKeyLeavesAlphabet | week2/caesar/caesar.c:47 | with key -1, C's `-1 % 26` is -1, `encrypt` turns "abc" into "`ab", and '`' is not a letter |
| CaesarC.Message | week2/caesar/caesar.c:51-57 | the message encrypted is a C string: it holds no NUL |
| VigenereC.IsAlphaString | week2/vigenere/vigenere.c:75-86 | true exactly when every character is a letter, which the empty string is |
| VigenereC.Shift | week2/vigenere/vigenere.c:126-129 | a letter of either case gets its place in the alphabet, 0 to 25; a character that is not uppercase gets `c - 'a'` |
| VigenereC.Keys | week2/vigenere/vigenere.c:96-103 | one shift per keyword character, each in 0 to 25 for an alphabetic keyword |
| VigenereC.KeyIndex | week2/vigenere/vigenere.c:106-113 | the counter `j` stays within `0 <= j < keylen` |
| VigenereC.KeyIndexCountsLetters | week2/vigenere/vigenere.c:106-113 | the counter at position `i` is the number of letters before `i`, modulo the keyword length |
| VigenereC.CipherText | week2/vigenere/vigenere.c:106-115 | one output character per message character |
| VigenereC.CipherTextLetters | week2/vigenere/vigenere.c:106-115 | a non-letter is unchanged; the `j`-th letter, counting letters only, keeps its case and is shifted by keyword shift `j % keylen` |
| VigenereC.CipherPrefixIsText | week2/vigenere/vigenere.c:106-115 | the characters the loop writes, one after the other, are the cipher text |
| VigenereC.CipherStep | week2/vigenere/vigenere.c:108-113 | one turn of the loop moves the counter only after a letter and appends that character's encryption |
| VigenereC.KeyIndexAlike | week2/vigenere/vigenere.c:106-113 | the counter depends only on which characters are letters |
| VigenereC.CipherTextKeepsLetters | week2/vigenere/vigenere.c:108-111 | with shifts in 0 to 25 a character of the cipher text is a letter exactly when the plaintext character is |
| VigenereC.Complement | week2/vigenere/vigenere.c:111 | each shift and its inverse add up to 26 |
| VigenereC.RoundTrip | week2/vigenere/vigenere.c:94-118 | encrypting with the complementary shifts gives the plaintext back |
| VigenereC.KeywordAIsIdentity | week2/vigenere/vigenere.c:94-118 | the keyword "a" or "A" leaves every message unchanged |
| VigenereC.OneLetterIsCaesar | week2/vigenere/vigenere.c:94-118 | a one-letter keyword is the Caesar cipher of week2/caesar/caesar.c with that letter's shift |
| VigenereC.Encrypt | week2/vigenere/vigenere.c:94-118 | the characters before the NUL become the cipher text under the keyword's shifts, the rest of the buffer is unchanged, and the cipher text is what is printed |
| VigenereC.EncryptLetters | week2/vigenere/vigenere.c:105-117 | the same, over a filled `key[]` array |
| VigenereC.EncryptLoop | week2/vigenere/vigenere.c:106-115 | the first `n` characters become the cipher text and are printed; the rest is unchanged |
| VigenereC.EncryptAt | week2/vigenere/vigenere.c:108-113 | a letter is shifted by key `j` and the counter moves to `(j + 1) % keylen`; a non-letter is kept and the counter stays; no other character changes |
| VigenereC.Keyword | week2/vigenere/vigenere.c:46-47 | the keyword copied is the argument cut to 999 characters |
| VigenereC.Program | week2/vigenere/vigenere.c:26-68 | usage error for a wrong argument count; keyword error for a non-alphabetic keyword; failure on empty input; an undefined run for the empty keyword; otherwise the message encrypted with the keyword |
| VigenereC.ProgramChecked | week2/vigenere/vigenere.c:35-40 | as `Program`, but the empty keyword is refused with the non-alphabetic ones, no run is undefined, and every ciphertext printed decrypts to the message |
| VigenereC.Run | week2/vigenere/vigenere.c:49-65 | the output is the message read, encrypted with the keyword's shifts |
| VigenereC.EmptyKeywordAccepted | week2/vigenere/vigenere.c:36-97 | the empty keyword passes `is_alpha_string`, is copied unchanged, and yields an empty `key[]` array |
| BinarySearch.BinarySearch | week2/binary_search/binary_search.c:82-106 | the result is -1 or an index holding the value; on a sorted array a value that is present is found |
| BinarySearch.Demo | week2/binary_search/binary_search.c:38-72 | on {1, 2, 3, 4, 5, 6} a value from 1 to 6 is found at index `value - 1` and anything else is not found |
| LinearSearch.ValidArraySize | week2/linear_search/linear_search.c:86-89 | an accepted size is positive, so the array read after it holds at least one element |
| LinearSearch.LinearSearch | week2/linear_search/linear_search.c:64-79 | true exactly when the array is not NULL, the size is positive and one of the first `size` elements equals the target |
| LinearSearch.Demo | week2/linear_search/linear_search.c:29-89 | {1, 2, 3, 4, 5} passes the size check, and a target is reported found exactly when it is 1 to 5 |
| SortSpec.SortedHeadLeast | week2/bubble_sort/bubble_sort.c:44-49 | the first element of a sorted sequence is at most each of its elements |
| SortSpec.SortedTail | week2/bubble_sort/bubble_sort.c:44-49 | dropping the first element keeps a sequence sorted and removes one occurrence of it |
| SortSpec.SortedSameHead | week2/bubble_sort/bubble_sort.c:44-49 | two sorted sequences with the same elements start alike and go on with sorted tails holding the same elements |
| SortSpec.SortedUnique | week2/bubble_sort/bubble_sort.c:44-49 | two sorted sequences with the same elements are equal, so a sort's output is determined by its input |
| SortSpec.SortsDemo | week2/bubble_sort/bubble_sort.c:21-40 | any sorted permutation of {5, 2, 4, 6, 1, 3} is 1 2 3 4 5 6 |
| SortSpec.Swap | week2/bubble_sort/bubble_sort.c:58-60 | the two elements trade places, nothing else changes, and the array keeps its elements |
| BubbleSort.BubbleSort | week2/bubble_sort/bubble_sort.c:50-64 | the array comes out sorted and a permutation of itself; one of at most one element is unchanged |
| BubbleSort.Pass | week2/bubble_sort/bubble_sort.c:54-62 | after the inner loop the largest element of the prefix is at its end, the suffix is untouched and still above the prefix, and the array keeps its elements |
| BubbleSort.Demo | week2/bubble_sort/bubble_sort.c:19-43 | {5, 2, 4, 6, 1, 3} comes out as 1 2 3 4 5 6 |
| SelectionSort.SelectionSort | week2/selection_sort/selection_sort.c:43-63 | the array comes out sorted and a permutation of itself |
| SelectionSort.MinIndex | week2/selection_sort/selection_sort.c:47-56 | the index found holds the least element of `array[i..]`, and the first such one, since only a strictly smaller element replaces the candidate |
| SelectionSort.Demo | week2/selection_sort/selection_sort.c:23-35 | {5, 2, 4, 6, 1, 3} comes out as 1 2 3 4 5 6 |
| InsertionSort.InsertedSorted | week2/insertion_sort/insertion_sort.c:59-64 | putting the key between the part of a sorted prefix at most the key and the part above it keeps it sorted |
| InsertionSort.ShiftedIsInserted | week2/insertion_sort/insertion_sort.c:59-64 | the prefix, the key and the shifted elements together are the old sequence with the key put in at the free place |
| InsertionSort.InsertedMultiset | week2/insertion_sort/insertion_sort.c:64 | putting the key in adds one occurrence of it |
| InsertionSort.InsertionSort | week2/insertion_sort/insertion_sort.c:52-66 | the array comes out sorted and a permutation of itself |
| InsertionSort.Insert | week2/insertion_sort/insertion_sort.c:56-64 | one pass of the outer loop leaves the prefix up to `i` sorted and the array a permutation of itself |
| InsertionSort.InsertStep | week2/insertion_sort/insertion_sort.c:56-64 | the array after a pass has its prefix up to `i` sorted and the same elements |
| InsertionSort.ShiftGreater | week2/insertion_sort/insertion_sort.c:57-63 | walking down from `i - 1`, every element above the key moves one place up, and the walk stops at an element at most the key or before the start |
| InsertionSort.Demo | week2/insertion_sort/insertion_sort.c:23-45 | {5, 2, 4, 6, 1, 3} comes out as 1 2 3 4 5 6 |
| MergeSort.MergedFromMultiset | week2/merge_sort/merge_sort.c:105-134 | what is merged from positions `i` and `j` on holds exactly the rest of both runs |
| MergeSort.MergedMultiset | week2/merge_sort/merge_sort.c:80-135 | the merge holds exactly the elements of both runs |
| MergeSort.SortedCons | week2/merge_sort/merge_sort.c:107-117 | a sorted sequence stays sorted with an element in front that is at most all of it |
| MergeSort.SortedSuffixLeast | week2/merge_sort/merge_sort.c:107 | every element of a sorted run from `i` on is at least the one at `i` |
| MergeSort.SortedBeyondLeast | week2/merge_sort/merge_sort.c:107 | every element of a sorted run after `i` is at least the one at `i` |
| MergeSort.MergedFromSorted | week2/merge_sort/merge_sort.c:105-134 | merging what remains of two sorted runs gives a sorted run |
| MergeSort.LeftHeadLeast | week2/merge_sort/merge_sort.c:107-111 | the left run's element placed on `<=` is at most everything merged after it |
| MergeSort.RightHeadLeast | week2/merge_sort/merge_sort.c:112-116 | the right run's element placed on `>` is at most everything merged after it |
| MergeSort.MergedSorted | week2/merge_sort/merge_sort.c:73-79 | merging two sorted runs gives a sorted run |
| MergeSort.Middle | week2/merge_sort/merge_sort.c:60 | for `left < right` the middle splits the range into two non-empty halves whose sizes differ by at most one |
| MergeSort.MergeSort | week2/merge_sort/merge_sort.c:56-71 | the range `array[left..right]` comes out sorted and a permutation of itself, and nothing outside it changes |
| MergeSort.MergeSortStep | week2/merge_sort/merge_sort.c:63-69 | sorting each half and merging them sorts the whole range without changing its elements or anything outside it |
| MergeSort.Merge | week2/merge_sort/merge_sort.c:80-135 | the range becomes the merge of its two halves as they were, and nothing outside it changes |
| MergeSort.CopyRun | week2/merge_sort/merge_sort.c:87-98 | a fresh temporary array holding the run |
| MergeSort.MergeBack | week2/merge_sort/merge_sort.c:101-134 | the three loops write the merge of the two temporary arrays from `left` on and change nothing else |
| MergeSort.MergedFromDone | week2/merge_sort/merge_sort.c:120-134 | once one run is used up, what remains to merge is the rest of the other |
| MergeSort.CopyTails | week2/merge_sort/merge_sort.c:120-134 | the rest of the left run, then the rest of the right run, are written from `k` on, and nothing else changes |
| MergeSort.MergeFronts | week2/merge_sort/merge_sort.c:105-118 | the first loop ends with one run used up, what it wrote is the front of the merge, and what remains is the merge of the rests |
| MergeSort.TakeSmaller | week2/merge_sort/merge_sort.c:107-117 | the smaller front element, the left one on a tie, is written at `left + i + j` as the next element of the merge, and exactly one run moves on |
| MergeSort.CopyRest | week2/merge_sort/merge_sort.c:121-134 | the rest of a run is copied to `array[k..]`, and nothing else changes |
| MergeSort.Demo | week2/merge_sort/merge_sort.c:24-48 | {5, 2, 4, 6, 1, 3} comes out as 1 2 3 4 5 6 |
| Bmp.Supported | week3/resize/resize.c:64-65 | an accepted file starts with the bytes "BM", its pixels start right after the 14- and 40-byte headers, and its info header is the 40-byte kind |
| Bmp.Padding | week3/Whodunit/whodunit.c:84 | the scanline padding is between 0 and 3 bytes |
| Bmp.PaddingAligns | week3/resize/resize.c:81-82 | a scanline of `3 * biWidth` bytes plus its padding is a multiple of 4 bytes |
| Bmp.Zeros | week3/Whodunit/whodunit.c:137-146 | `n` bytes, each 0x00, and none for a non-positive count |
| Bmp.Encode | week3/Whodunit/whodunit.c:118 | written pixels take three bytes each |
| Bmp.RowPixels | week3/Whodunit/whodunit.c:90-93 | `count` pixel reads give `count` triples |
| Bmp.EncodeRowPixels | week3/resize/resize.c:96-106 | triples read from bytes and written back give exactly those bytes |
| Bmp.EncodeRowStep | week3/Whodunit/whodunit.c:90-93 | one more triple read at `q` writes back the three bytes at `q` after the earlier ones |
| Bmp.RowPixelsSnoc | week3/Whodunit/whodunit.c:90-93 | the triples read so far are the earlier ones followed by the one at `q` |
| Bmp.TripleBytesAt | week3/Whodunit/whodunit.c:92-93 | a triple read from three bytes writes back those three bytes |
| Bmp.EncodeSnoc | week3/Whodunit/whodunit.c:118 | writing one more pixel appends its three bytes |
| Bmp.PrependAssoc | week3/Whodunit/whodunit.c:87-147 | writing two runs of bytes before the rest of the image is writing their concatenation before it |
| Bmp.WritePadding | week3/Whodunit/whodunit.c:137-146 | the padding loop appends exactly `padding` zero bytes |
| Bmp.EncodeAppend | week3/resize/resize.c:103-106 | pixels written in two runs are the bytes of the first run followed by those of the second |
| Whodunit.Filter | week3/Whodunit/whodunit.c:102-116 | every channel ends 0, 0xff or unchanged at 0x80 or more; a channel below 0x80 becomes 0 unless the pixel turns white; a pixel turns white exactly when it is red noise (red above 0xf0, green and blue below 0x80) or already white |
| Whodunit.FilterIdempotent | week3/Whodunit/whodunit.c:102-116 | filtering an already filtered pixel changes nothing |
| Whodunit.FilterAll | week3/Whodunit/whodunit.c:90-125 | a filtered scanline has the same length and each pixel is the filtered input pixel at the same column |
| Whodunit.ImageLength | week3/Whodunit/whodunit.c:87-147 | a successful run writes `rows * (3 * cols + padding)` pixel bytes, each scanline as wide as it went in |
| Whodunit.ImageDefined | week3/Whodunit/whodunit.c:87-147 | the run reads every pixel exactly when there are no rows, no columns, or the last scanline's pixels end inside the data (the padding skip of `fseek` needs no data) |
| Whodunit.ProcessPixel | week3/Whodunit/whodunit.c:92-116 | the pixel written is the filtered triple read at `pos` |
| Whodunit.FilterScanline | week3/Whodunit/whodunit.c:90-125 | the column loop succeeds exactly when the scanline's pixels are in the data, writing the scanline's pixels filtered and ending after them |
| Whodunit.FilteredStep | week3/Whodunit/whodunit.c:92-118 | one more column appends the filtered pixel's three bytes |
| Whodunit.FilterAllSnoc | week3/Whodunit/whodunit.c:90-125 | filtering a scanline with one more pixel appends that pixel filtered |
| Whodunit.ImageDone | week3/Whodunit/whodunit.c:87 | with no scanline left, what was written is the whole image |
| Whodunit.FilterRow | week3/Whodunit/whodunit.c:88-146 | one pass of the row loop fails exactly when the image from `pos` cannot be read; otherwise it writes the bytes the image puts before the rest of the rows |
| Whodunit.FilterImage | week3/Whodunit/whodunit.c:84-147 | the scanline loop over `abs(biHeight)` rows succeeds exactly when the image can be read, and then writes exactly the filtered image |
| Whodunit.Program | week3/Whodunit/whodunit.c:15-153 | exit 1 for a wrong argument count, 4 and 5 for unreadable headers, 6 for an unsupported format, 8 for missing pixel data; otherwise the headers are copied unchanged and the pixel data is the filtered image |
| Resize.Dword | week3/resize/resize.c:85-86 | a value stored in a `DWORD` header field lies in 0..2^32-1 and is unchanged when it already fits |
| Resize.NewInfoHeader | week3/resize/resize.c:75-85 | only the width, the height and `biSizeImage` change, and `biSizeImage` fits a `DWORD` |
| Resize.NewFileHeader | week3/resize/resize.c:74-86 | only `bfSize` changes; it is the image size plus both headers whenever that sum fits a `DWORD` |
| Resize.ScaleRow | week3/resize/resize.c:96-107 | the pixels of a scanline, each written `n` times in a row; carries no contract of its own, its width is proved by `ScaleRowLength`, its layout by `ScaleRowIndex` |
| Resize.ScaleRowLength | week3/resize/resize.c:96-107 | scaling across makes a scanline `n` times as wide |
| Resize.Scanline | week3/resize/resize.c:96-116 | every byte after the `3 * (n * cols)` pixel bytes is a zero padding byte |
| Resize.ScaleRowIndex | week3/resize/resize.c:96-107 | input pixel `k` lands at output places `k * n` to `k * n + n - 1` |
| Resize.ScaleRowOne | week3/resize/resize.c:103-106 | with a factor of 1 a scanline is copied as it is |
| Resize.ScaleRowSnoc | week3/resize/resize.c:96-107 | one more input pixel appends its `n` copies to the output scanline |
| Resize.RepeatSingle | week3/resize/resize.c:103-106 | every one of the `n` writes of a triple writes that triple |
| Resize.Resized | week3/resize/resize.c:93-143 | the pixel bytes written, `None` when a read runs out of data; carries no contract of its own, its length is proved by `ResizedLength` and when it exists by `ResizedDefined` |
| Resize.ResizedLength | week3/resize/resize.c:93-143 | a successful run writes `n` output scanlines of `3 * (n * biWidth) + new_padding` bytes per input scanline |
| Resize.CopiesLength | week3/resize/resize.c:113-142 | the `n` copies of an output scanline take `n` times its width |
| Resize.ResizedDefined | week3/resize/resize.c:93-143 | the run reads every pixel exactly when there are no rows, no columns, or the last input scanline's pixels end inside the data; re-reading a scanline reads nothing new |
| Resize.ResizedSomeStep | week3/resize/resize.c:93-143 | the image from a scanline can be read exactly when that scanline's pixels are there and the image after it can be read |
| Resize.FactorOneCopies | week3/resize/resize.c:93-143 | with a factor of 1 and zero input padding, the output pixel data is the input's scanlines byte for byte |
| Resize.CopyStep | week3/resize/resize.c:93-117 | with a factor of 1 a scanline is copied whole before the copy of the scanlines after it |
| Resize.ScanlineCopied | week3/resize/resize.c:96-116 | with a factor of 1 an output scanline equals the input scanline when its padding is zero |
| Resize.NewHeadersScale | week3/resize/resize.c:74-86 | the new headers are still a supported format, both dimensions are `n` times the old ones, and `bfSize` is the image size plus the 54 header bytes whenever that fits a `DWORD` |
| Resize.SizeImageMatches | week3/resize/resize.c:85 | for a non-negative width and an image size that fits a `DWORD`, `biSizeImage` is the number of pixel bytes written |
| Resize.PixelCount | week3/resize/resize.c:85 | the header's product `(3 * width + new_padding) * abs(height)` counts the pixel bytes written |
| Resize.WriteTriple | week3/resize/resize.c:103-106 | the `k` loop appends the triple's bytes `n` times |
| Resize.ScanlineStep | week3/resize/resize.c:96-107 | one more input triple written `n` times extends the scaled scanline by one input pixel |
| Resize.SameScanline | week3/resize/resize.c:122-133 | after seeking back, the `j` loop reads the same input scanline and writes the same output scanline |
| Resize.ScaleScanline | week3/resize/resize.c:96-107 | the `j` loop succeeds exactly when the scanline's pixels are in the data, writing each pixel `n` times and ending after the scanline |
| Resize.ResizedFails | week3/resize/resize.c:96-100 | a scanline whose pixels are not all there leaves no defined image |
| Resize.ResizedStep | week3/resize/resize.c:93-143 | a scanline read whole moves its `n` output scanlines from the rest of the image to the output |
| Resize.ResizedDone | week3/resize/resize.c:93 | with no scanline left, what was written is the whole image |
| Resize.RepeatScanline | week3/resize/resize.c:118-142 | the `l` loop writes the output scanline `n` times in all, seeking back to re-read the same input scanline |
| Resize.ResizeImage | week3/resize/resize.c:81-143 | the scanline loop over `abs(biHeight)` rows succeeds exactly when the image can be read, and then writes exactly the scaled image |
| Resize.Program | week3/resize/resize.c:6-150 | exit 1 for a wrong argument count or a factor outside 1..100, 4 and 5 for unreadable headers, 6 for an unsupported format; otherwise the new headers and the scaled pixel data, and undefined output when a pixel read fails |
| Recover.IsSignature | week3/recover/recover.c:46 | a block starts a JPEG exactly when its bytes are ff d8 ff and then one of e0 through ef |
| Recover.HighNibble | week3/recover/recover.c:46 | `(buffer[3] & 0xf0) == 0xe0` holds exactly for the bytes 0xe0 through 0xef |
| Recover.Blocks | week3/recover/recover.c:43 | every block the loop reads has the full 512 bytes |
| Recover.BlocksAppend | week3/recover/recover.c:43 | after a whole number of blocks, the blocks read are those blocks followed by the blocks of the rest |
| Recover.BlocksCover | week3/recover/recover.c:43 | the loop reads `|data| / 512` blocks which, put together, are the card up to its last multiple of 512 bytes; only a trailing partial block is lost |
| Recover.FirstSignature | week3/recover/recover.c:43-64 | the index of a signature block with no signature block before it, or the block count when there is none |
| Recover.Step | week3/recover/recover.c:46-71 | a signature opens one more file; otherwise the block is appended to the open file, or dropped while none is open; everything written extends what was written before |
| Recover.Recovered | week3/recover/recover.c:43-71 | at most one file per block read, each a non-empty run of whole 512-byte blocks |
| Recover.RecoveredCount | week3/recover/recover.c:46-63 | one file is created per signature block |
| Recover.NothingBeforeSignature | week3/recover/recover.c:37-70 | no file is written exactly when the card holds no signature block |
| Recover.AppendToLast | week3/recover/recover.c:67-70 | writing a block to the open file appends it to the concatenation of all files |
| Recover.RecoveredSuffix | week3/recover/recover.c:43-71 | the files put together are exactly the blocks from the first signature block on, in order |
| Recover.SuffixStep | week3/recover/recover.c:43-71 | one more block keeps the files' concatenation equal to the blocks from the first signature on |
| Recover.JpegAppend | week3/recover/recover.c:67-70 | a recovered file stays a JPEG when a non-signature block is appended |
| Recover.RecoveredAreJpegs | week3/recover/recover.c:43-71 | every file is whole blocks, starting with a signature block and holding no other signature block |
| Recover.Digits | week3/recover/recover.c:55 | `%i` prints at least one decimal digit |
| Recover.Pad3 | week3/recover/recover.c:55 | `%03i` padding keeps a string of digits a string of digits |
| Recover.Names | week3/recover/recover.c:55-63 | one name per file opened |
| Recover.DigitsValue | week3/recover/recover.c:55 | the printed digits denote the number printed |
| Recover.LeadingZero | week3/recover/recover.c:55 | a leading zero does not change the number denoted |
| Recover.PadValue | week3/recover/recover.c:55 | `%03i` denotes the same number and is at least three characters long |
| Recover.FileNamesDistinct | week3/recover/recover.c:55-63 | two files get the same name exactly when their counts are equal, so no file overwrites an earlier one |
| Recover.DigitsLength | week3/recover/recover.c:55 | a number prints in at most `d` digits exactly when it is below 10^d |
| Recover.NameFits | week3/recover/recover.c:55 | the name and its NUL fit the 8-byte buffer exactly while fewer than 1000 files have been opened |
| Recover.BlocksStep | week3/recover/recover.c:43 | one more loop pass reads the next 512 bytes as one more block |
| Recover.BlocksPrefix | week3/recover/recover.c:43 | the blocks read so far come first among the blocks of the whole card |
| Recover.CountAppend | week3/recover/recover.c:46-63 | signature blocks of two runs of blocks add up |
| Recover.CountAtLeast | week3/recover/recover.c:46-63 | the card holds at least as many signature blocks as have been read so far |
| Recover.SignatureAhead | week3/recover/recover.c:46-63 | a signature block at the current position is one more than the blocks before it hold |
| Recover.WriteStep | week3/recover/recover.c:46-70 | one loop pass (a new empty file on a signature block, then the block appended to the open file) is `Step` |
| Recover.RecoverImages | week3/recover/recover.c:43-71 | the loop completes exactly when the card holds at most 1000 signature blocks, and then the files are the recovered JPEGs named `000.jpg`, `001.jpg`, ... in order |
| Recover.Program | week3/recover/recover.c:10-83 | exit 1 for a wrong argument count; undefined once a 1001st name overflows the buffer; otherwise the recovered files with their names |
| Basics.CRem | week2/caesar/caesar.c:47 | C's `%` by a positive modulus: below the modulus in size, Dafny's `%` for a dividend that is not negative, and never positive for a dividend that is not positive |
| Basics.CDiv | week1/cash/cash.c:64 | C's `/` by a positive divisor: Dafny's `/` for a dividend that is not negative, and never positive for a dividend that is not positive |
| Ascii.ToLower | week4/speller/dictionary.c:31 | `tolower` maps an uppercase letter to the lowercase letter at the same place and leaves everything else alone |
| Ascii.StrLen | week2/caesar/caesar.c:54 | `strlen` is the index of the first NUL |
| Dictionaries.Hash | week4/speller/dictionary.c:29-34 | the bucket is below 26: the alphabet index of the lower-cased first character for a letter, 0 for anything else and for the empty word |
| Dictionaries.HashIgnoresCase | week4/speller/dictionary.c:29-34 | words equal ignoring case fall into the same bucket |
| Dictionaries.Chain | week4/speller/dictionary.c:57-79 | a bucket's chain after a load holds exactly the loaded words that hash to it |
| Dictionaries.TableSnoc | week4/speller/dictionary.c:71-75 | loading one more word puts it at the head of its own bucket's chain and changes no other chain |
| Dictionaries.ChainsPartition | week4/speller/dictionary.c:57-79 | the first `k` chains hold as many nodes as there are loaded words hashing below `k` |
| Dictionaries.CheckFindsLoaded | week4/speller/dictionary.c:95-115 | searching only the word's own bucket loses nothing: it holds a word equal to it ignoring case exactly when some loaded word is |
| Dictionaries.LoadedSize | week4/speller/dictionary.c:57-79 | a load into empty buckets leaves exactly one node per word in the table |
| Dictionaries.Dictionary.constructor | week4/speller/dictionary.c:23-26 | every bucket empty and the count zero |
| Dictionaries.Dictionary.Load | week4/speller/dictionary.c:37-86 | true exactly when the file opens and every allocation succeeds; the buckets then hold the chains of the words loaded (none when the file does not open, the first `k` when allocation `k` fails), and the count grows by their number modulo 2^32 |
| Dictionaries.Dictionary.ClearBuckets | week4/speller/dictionary.c:40-43 | every bucket empty, the count unchanged |
| Dictionaries.Dictionary.InsertAll | week4/speller/dictionary.c:57-85 | from empty buckets, the chains of the words loaded before the first failing allocation, the count grown by their number modulo 2^32, and true exactly when no allocation fails |
| Dictionaries.Dictionary.AddWord | week4/speller/dictionary.c:60-78 | the word at the head of its bucket's chain, no other bucket changed, the count one more modulo 2^32 |
| Dictionaries.Dictionary.Size | week4/speller/dictionary.c:89-92 | the count, below 2^32 |
| Dictionaries.Dictionary.Check | week4/speller/dictionary.c:95-115 | true exactly when the word's bucket holds a word equal to it ignoring case |
| Dictionaries.Dictionary.Unload | week4/speller/dictionary.c:118-133 | always true, after visiting every node of every chain once |
| Ascii.ToUpper | week6/vigenere/vigenere.py:25 | `str.upper` on one character maps a lowercase letter to the uppercase letter at the same place and leaves everything else alone |
| Ascii.UpperOfLower | week6/vigenere/vigenere.py:25 | upper-casing forgets an earlier lower-casing, so a key letter's shift ignores its case |
| Ascii.Lower | week6/bleep/bleep.py:15-26 | `str.lower` keeps the length and lower-cases each character in place |
| HashLayout.Djb2 | week4/hash_tables/hash_tables.c:203-208 | the DJB2 accumulator `h * 33 + c` from 5381 stays below 2^64, the width of `unsigned long` |
| HashLayout.Bucket | week4/hash_tables/hash_tables.c:198-211 | the bucket is below the capacity, and 0 for a zero capacity |
| HashLayout.LayoutUniqueKeys | week4/hash_tables/hash_tables.c:317-332 | with every entry in its own bucket and no key twice in a chain, no key occurs at two positions of the table |
| HashLayout.ContentsAt | week4/hash_tables/hash_tables.c:342-358 | the entry at a position is what the table's map holds for its key |
| HashLayout.NotInContents | week4/hash_tables/hash_tables.c:347-357 | a key absent from its own bucket is absent from the table |
| HashLayout.EmptyLayout | week4/hash_tables/hash_tables.c:180-187 | empty buckets form a valid layout with no entries and an empty map |
| HashLayout.TotalSizeUpdate | week4/hash_tables/hash_tables.c:329-331 | replacing one chain changes the entry count by the difference of the two chains' lengths |
| HashLayout.ContentsAdd | week4/hash_tables/hash_tables.c:329-331 | adding an entry of a fresh key adds exactly its pair to the map |
| HashLayout.ContentsRemove | week4/hash_tables/hash_tables.c:379-387 | removing an entry removes exactly its key from the map |
| HashLayout.ContentsReplace | week4/hash_tables/hash_tables.c:319 | swapping an entry for one with a new value changes the map only at its key |
| HashLayout.ReplaceKeys | week4/hash_tables/hash_tables.c:319 | overwriting a value keeps the set of keys |
| HashLayout.EntryValue | week4/hash_tables/hash_tables.c:342-358 | in a valid layout an entry's key maps to that entry's value |
| HashLayout.PrependLayout | week4/hash_tables/hash_tables.c:329-330 | head insertion of an entry whose key its bucket lacks keeps the layout valid |
| HashLayout.PrependEntries | week4/hash_tables/hash_tables.c:329-330 | head insertion adds exactly one entry |
| HashLayout.PrependEntry | week4/hash_tables/hash_tables.c:323-332 | head insertion of a new key keeps the layout valid, adds one to the count and adds the pair to the map |
| HashLayout.EntryAtOnePosition | week4/hash_tables/hash_tables.c:350-355 | in a valid layout a key is stored at one position only |
| HashLayout.ReplaceLayout | week4/hash_tables/hash_tables.c:319 | overwriting a value in place keeps the layout valid |
| HashLayout.ReplaceEntries | week4/hash_tables/hash_tables.c:319 | overwriting a value in place swaps exactly that one entry |
| HashLayout.ReplaceEntry | week4/hash_tables/hash_tables.c:317-320 | overwriting the value stored for a key keeps the layout valid and the count, and changes the map only at that key |
| HashLayout.RemoveLayout | week4/hash_tables/hash_tables.c:379-383 | unlinking an entry keeps the layout valid |
| HashLayout.RemoveEntries | week4/hash_tables/hash_tables.c:379-383 | unlinking removes exactly that entry |
| HashLayout.RemovedGone | week4/hash_tables/hash_tables.c:379-383 | after the unlink every entry left was there before and is not the one removed |
| HashLayout.RemovedKept | week4/hash_tables/hash_tables.c:379-383 | after the unlink every other entry is still there |
| HashLayout.RemoveEntry | week4/hash_tables/hash_tables.c:376-389 | unlinking the entry found keeps the layout valid, drops the count by one and removes its key from the map |
| HashLayout.SameEntriesSameContents | week4/hash_tables/hash_tables.c:269-282 | two valid layouts holding the same entries stand for the same map, so rehashing keeps the table's contents |
| HashLayout.NotYetMoved | week4/hash_tables/hash_tables.c:270-282 | while rehashing, the entry being moved has a key that no entry already moved has |
| HashLayout.NextBucket | week4/hash_tables/hash_tables.c:270-282 | finishing a bucket adds its chain to the entries moved and to their count |
| HashTables.Code | week4/hash_tables/hash_tables.c:23-29 | every status has its enum value, 0 to 4 |
| HashTables.StatusToString | week4/hash_tables/hash_tables.c:140-149 | a non-empty message, "Unknown status" exactly for a value outside the five statuses |
| HashTables.StatusMessagesDistinct | week4/hash_tables/hash_tables.c:140-149 | every status has its own message, and none reads "Unknown status" |
| HashTables.UnknownStatus | week4/hash_tables/hash_tables.c:140-149 | "Unknown status" is returned exactly for a value outside 0 to 4 |
| HashTables.LoadFactor | week4/hash_tables/hash_tables.c:157-162 | the load factor is not negative, and times the capacity gives the size; 0 without buckets |
| HashTables.GrowThreshold | week4/hash_tables/hash_tables.c:306 | a load factor of at least 0.75 means exactly `4 * size >= 3 * capacity` |
| HashTables.ShrinkThreshold | week4/hash_tables/hash_tables.c:392 | a load factor below 0.25 means exactly `4 * size < capacity` |
| HashTables.GrownCapacity | week4/hash_tables/hash_tables.c:307-310 | the grown capacity is always larger, and is `capacity + capacity / 2` from 2 on |
| HashTables.ShrunkCapacity | week4/hash_tables/hash_tables.c:394-397 | the shrunk capacity is at least 101, is half the capacity when that is not below 101, and is smaller than any capacity above 101 |
| HashTables.Hash | week4/hash_tables/hash_tables.c:198-211 | 0 for a NULL key or no buckets; otherwise the key's DJB2 bucket, below the table size |
| HashTables.FindKey | week4/hash_tables/hash_tables.c:350-355 | the first position whose key equals the key, or none exactly when no entry of the chain has it |
| HashTables.RehashStep | week4/hash_tables/hash_tables.c:275-278 | moving one more entry to the front of its new bucket keeps the new layout valid and extends the entries moved by that one |
| HashTables.Rehash | week4/hash_tables/hash_tables.c:256-282 | a fresh bucket array of the new capacity forming a valid layout with the same entries and count |
| HashTables.HashTable.constructor | week4/hash_tables/hash_tables.c:170-188 | an empty valid table of the requested capacity, 101 for a zero request |
| HashTables.HashTable.Resize | week4/hash_tables/hash_tables.c:250-288 | invalid input for a zero capacity and a memory error when the allocation fails, the table unchanged; otherwise the new capacity with the same contents and size |
| HashTables.HashTable.Insert | week4/hash_tables/hash_tables.c:300-333 | invalid input for a NULL key; at load factor 0.75 or more a failed growth returns its error with the table unchanged, else the table grows first; then an existing key gets the new value, a new key is added with the size one more, and a failed element allocation changes nothing |
| HashTables.HashTable.Put | week4/hash_tables/hash_tables.c:317-332 | an existing key gets the new value with the same size; a new key is added with the size one more, unless its allocation fails, which leaves the map as it was |
| HashTables.HashTable.ReplaceValue | week4/hash_tables/hash_tables.c:319 | the map changes only at the entry's key, which now holds the new value |
| HashTables.HashTable.PushFront | week4/hash_tables/hash_tables.c:329-331 | the size is one more and the map gains the pair |
| HashTables.HashTable.Search | week4/hash_tables/hash_tables.c:342-358 | nothing for a NULL key; otherwise a value exactly when the key is present, and then the value stored for it |
| HashTables.HashTable.Delete | week4/hash_tables/hash_tables.c:367-409 | invalid input for a NULL key and key-not-found for an absent one, the table unchanged; otherwise success, the key gone, the size one less, and the capacity halved (not below 101) when the load factor falls below 0.25 on a table above 101 and the allocation succeeds |
| HashTables.HashTable.RemoveAt | week4/hash_tables/hash_tables.c:379-389 | the size is one less and the map loses the entry's key |
| HashTables.HashTable.Free | week4/hash_tables/hash_tables.c:448-467 | every element is released once: as many as the size, and as the keys in the map |
| HashTables.CreateHashTable | week4/hash_tables/hash_tables.c:170-189 | NULL exactly when an allocation fails; otherwise a fresh empty table of the requested capacity, 101 for a zero request |
| HashTables.InsertNew | week4/hash_tables/hash_tables.c:73-75 | a key that is absent from a default-size table at most two entries full is added without growth |
| HashTables.Demo | week4/hash_tables/hash_tables.c:65-98 | after inserting key1, key2 and key3, the search for key2 finds 2, its deletion succeeds, and two keys are left |
| SinglyLinkedLists.InsertAt | week4/singly_linked_list/singly_linked_list.c:201-237 | the value lands at the given index, or last when the index is at least the length; the elements before keep their indices and the ones after move up by one |
| SinglyLinkedLists.RemoveAt | week4/singly_linked_list/singly_linked_list.c:283-311 | one element shorter; the elements before the index keep theirs and the ones after move down by one |
| SinglyLinkedLists.FirstIndex | week4/singly_linked_list/singly_linked_list.c:255-258 | an index holding the value with no earlier index holding it |
| SinglyLinkedLists.RemoveInserted | week4/singly_linked_list/singly_linked_list.c:201-311 | deleting at the position an insertion used gives the list back |
| SinglyLinkedLists.RemoveAtMultiset | week4/singly_linked_list/singly_linked_list.c:298-308 | deleting at a position takes exactly one copy of the element there out of the list's multiset |
| SinglyLinkedLists.RemoveFirstMultiset | week4/singly_linked_list/singly_linked_list.c:246-274 | deleting a present value takes exactly one copy of it out; deleting an absent value changes nothing; the length drops by one exactly when the value is present |
| SinglyLinkedLists.InsertedLinked | week4/singly_linked_list/singly_linked_list.c:207-233 | a node linked in after its predecessor (or as the head) and pointing at its successor leaves a NULL-terminated chain |
| SinglyLinkedLists.InsertedHolds | week4/singly_linked_list/singly_linked_list.c:232-233 | the chain with the new node holds the data with its value inserted at the same index |
| SinglyLinkedLists.InsertedDistinct | week4/singly_linked_list/singly_linked_list.c:139-143 | a freshly allocated node keeps the chain's nodes distinct |
| SinglyLinkedLists.InsertedWithin | week4/singly_linked_list/singly_linked_list.c:139-143 | the chain with the new node lies within the list's nodes plus the new one |
| SinglyLinkedLists.RemovedLinked | week4/singly_linked_list/singly_linked_list.c:261-308 | moving the head on, or making the predecessor bypass the node, leaves a NULL-terminated chain |
| SinglyLinkedLists.RemovedHolds | week4/singly_linked_list/singly_linked_list.c:261-308 | the chain without the node holds the data without the element at its index |
| SinglyLinkedLists.RemovedWithin | week4/singly_linked_list/singly_linked_list.c:261-308 | the chain without the node stays within the list's nodes |
| SinglyLinkedLists.RemovedDistinct | week4/singly_linked_list/singly_linked_list.c:261-308 | the chain without the node keeps its nodes distinct |
| SinglyLinkedLists.Node.constructor | week4/singly_linked_list/singly_linked_list.c:25-28 | a node holds the given data and successor |
| SinglyLinkedLists.SinglyLinkedList.constructor | week4/singly_linked_list/singly_linked_list.c:118-126 | a new list has a NULL head, size 0 and no elements |
| SinglyLinkedLists.SinglyLinkedList.Walk | week4/singly_linked_list/singly_linked_list.c:226-229 | following `next` from the head `i` times reaches the node at index `i` |
| SinglyLinkedLists.SinglyLinkedList.InsertAtBeginning | week4/singly_linked_list/singly_linked_list.c:135-153 | fails exactly when the allocation fails, leaving the list as it was; otherwise the value becomes the first element and the list stays a valid chain with its size |
| SinglyLinkedLists.SinglyLinkedList.LinkFront | week4/singly_linked_list/singly_linked_list.c:147-150 | a node pointing at the old head becomes the first node and its value the first element |
| SinglyLinkedLists.SinglyLinkedList.InsertAtEnd | week4/singly_linked_list/singly_linked_list.c:162-191 | fails exactly when the allocation fails, leaving the list as it was; otherwise the value becomes the last element |
| SinglyLinkedLists.SinglyLinkedList.InsertAtPosition | week4/singly_linked_list/singly_linked_list.c:201-237 | fails exactly when the allocation fails; otherwise the data becomes `InsertAt` of the old data, so position 0 inserts first and a position from the size on inserts last |
| SinglyLinkedLists.SinglyLinkedList.LinkAfter | week4/singly_linked_list/singly_linked_list.c:226-236 | a node linked after the node at `p - 1` becomes the node at `p`, and its value the element at `p` |
| SinglyLinkedLists.SinglyLinkedList.Splice | week4/singly_linked_list/singly_linked_list.c:232-233 | the new node points at the old successor and the predecessor at the new node |
| SinglyLinkedLists.SinglyLinkedList.DeleteByValue | week4/singly_linked_list/singly_linked_list.c:246-274 | succeeds exactly when the value occurs; the data loses its first occurrence of the value and nothing else |
| SinglyLinkedLists.SinglyLinkedList.DeleteAtPosition | week4/singly_linked_list/singly_linked_list.c:283-311 | succeeds exactly when the position is below the size; the data then loses the element at that position, and otherwise is unchanged |
| SinglyLinkedLists.SinglyLinkedList.Unlink | week4/singly_linked_list/singly_linked_list.c:261-308 | the node at index `k` leaves the chain and its element leaves the data |
| SinglyLinkedLists.SinglyLinkedList.FindNode | week4/singly_linked_list/singly_linked_list.c:320-334 | NULL exactly when the value is absent; otherwise the node holding the value's first occurrence |
| SinglyLinkedLists.SinglyLinkedList.Values | week4/singly_linked_list/singly_linked_list.c:341-359 | walking from the head to NULL visits exactly the list's data, in order |
| SinglyLinkedLists.SinglyLinkedList.Clear | week4/singly_linked_list/singly_linked_list.c:386-400 | the list ends empty with a NULL head and size 0 |
| SinglyLinkedLists.GetSize | week4/singly_linked_list/singly_linked_list.c:367-369 | the number of elements, 0 for a NULL list |
| SinglyLinkedLists.IsEmpty | week4/singly_linked_list/singly_linked_list.c:377-379 | true exactly for a NULL list or a list with no elements |
| SinglyLinkedLists.CreateSinglyLinkedList | week4/singly_linked_list/singly_linked_list.c:118-126 | NULL exactly when the allocation fails, otherwise a fresh empty list |
| SinglyLinkedLists.DemoFront | week4/singly_linked_list/singly_linked_list.c:63-67 | inserting 30, 20 and 10 at the beginning gives 10, 20, 30 |
| SinglyLinkedLists.DemoList | week4/singly_linked_list/singly_linked_list.c:64-76 | then 40 at the end and 25 at position 2 give 10, 20, 25, 30, 40 |
| SinglyLinkedLists.DemoDeletions | week4/singly_linked_list/singly_linked_list.c:88-102 | deleting 20 and then position 1 from that list leaves 10, 30, 40 |
| SinglyLinkedLists.Demo | week4/singly_linked_list/singly_linked_list.c:55-111 | 25 is found, both deletions succeed, and the list ends as 10, 30, 40 with size 3 |
| Tries.Put | week4/tries/tries.c:119-126 | slot `i` holds a new leaf with the name; the root's name and every other slot are unchanged |
| Tries.FirstNamed | week4/tries/tries.c:142-158 | none exactly when no tree is named `name`; otherwise a tree named `name` at some index with no earlier tree so named |
| Tries.FirstNamedAppend | week4/tries/tries.c:147-157 | in a concatenation the left part's first match wins, and the right part decides only when the left has none |
| Tries.Find | week4/tries/tries.c:135-159 | whatever is found carries the name searched for and is a node of the subtree |
| Tries.FindSome | week4/tries/tries.c:135-159 | the search finds a node exactly when the name is stored somewhere in the subtree, and what it finds carries that name |
| Tries.NamesOfAppend | week4/tries/tries.c:147-157 | the names of a concatenation of forests are the union of their names |
| Tries.ForestFromSlots | week4/tries/tries.c:147-157 | the preorder of the slots from `i` on depends only on those slots |
| Tries.EmptyForest | week4/tries/tries.c:147-157 | NULL slots from `i` on contribute no node |
| Tries.LeafSubtrees | week4/tries/tries.c:91-94 | a node with every slot NULL is its own whole preorder |
| Tries.PutForestNames | week4/tries/tries.c:125 | filling slot `i` adds exactly the new name to every slot range covering `i` |
| Tries.PutNames | week4/tries/tries.c:119-126 | a successful insertion into an empty slot adds exactly the new name to the tree's names |
| Tries.PutForestSize | week4/tries/tries.c:125 | filling slot `i` adds exactly one node to every slot range covering `i` |
| Tries.PutSize | week4/tries/tries.c:119-126 | a successful insertion adds exactly one node to the tree |
| Tries.TrieNode.constructor | week4/tries/tries.c:72-97 | a fresh node holding a copy of the name with every slot NULL |
| Tries.CreateNode | week4/tries/tries.c:72-97 | NULL exactly when either allocation fails, otherwise a fresh leaf holding the name |
| Tries.TrieInsert | week4/tries/tries.c:106-127 | succeeds exactly for a non-NULL root, an index in 0..9, an empty slot and both allocations succeeding; the tree then gains the leaf in that slot, and otherwise is unchanged |
| Tries.ChildValid | week4/tries/tries.c:149-151 | the node in slot `i` is a valid subtree mirroring slot `i` of the value, owning less than its parent |
| Tries.ForestFromSome | week4/tries/tries.c:149-156 | the preorder from a filled slot is that child's preorder, then the preorder of the later slots |
| Tries.ForestFromNone | week4/tries/tries.c:149 | the preorder from a NULL slot is the preorder of the later slots |
| Tries.TrieSearch | week4/tries/tries.c:135-159 | NULL for a NULL root; otherwise NULL exactly when no node in the subtree holds the name, else the first node in preorder holding it |
| Tries.SearchSlots | week4/tries/tries.c:147-158 | the slot loop returns the first node named `name` in the slots' preorder, NULL exactly when there is none |
| Tries.TrieDelete | week4/tries/tries.c:165-182 | every node of the tree is freed exactly once: the count freed is the tree's node count, 0 for NULL |
| Tries.ThreeInserted | week4/tries/tries.c:46-48 | filling slots 0, 1 and 9 of a leaf gives four nodes holding the root's name and the three new ones |
| Tries.DemoRoot | week4/tries/tries.c:39-48 | the demonstration tree holds Root University, Harvard, MIT and Stanford in four nodes |
| Tries.Demo | week4/tries/tries.c:37-65 | the insertions succeed, the search for MIT finds the MIT node, and freeing releases four nodes |
| CaesarPy.ShiftChar | week6/caesar/caesar.py:30-41 | for every key, a letter stays a letter of the same case, moved `key` places round its alphabet under Python's floored `%`; anything else is kept |
| CaesarPy.CipherText | week6/caesar/caesar.py:28-41 | character `i` is the loop's shift of plaintext character `i` |
| CaesarPy.ReducedKeyChar | week6/caesar/caesar.py:32-37 | Python's floored `%` with any key shifts a character as the rule of week2/caesar/caesar.c does with the key reduced into 0..25 |
| CaesarPy.ReducedKeyText | week6/caesar/caesar.py:28-41 | the C encryption with the reduced key shifts every character by the Python rule |
| CaesarPy.Cipher | week6/caesar/caesar.py:25-41 | the text built is the plaintext shifted character by character |
| CaesarPy.Program | week6/caesar/caesar.py:6-44 | usage error for a wrong argument count; key error when `int()` raises or the key is negative; otherwise the ciphertext of the line read |
| CaesarPy.RoundTripChar | week6/caesar/caesar.py:32-37 | shifting a character by `key` and then by `-key` gives it back, for every key |
| CaesarPy.RoundTrip | week6/caesar/caesar.py:28-41 | decrypting with `-key` gives the plaintext back, for every key |
| CaesarPy.KeyPeriod | week6/caesar/caesar.py:32-37 | keys that differ by a multiple of 26 give the same ciphertext |
| CaesarPy.AgreesWithC | week6/caesar/caesar.py:28-41 | for a key that is not negative the Python ciphertext is that of week2/caesar/caesar.c, with the key whole or reduced by C's `%` |
| CaesarPy.AgreesWithCChar | week6/caesar/caesar.py:30-41 | for a key that is not negative the Python and C rules shift each character alike |
| VigenerePy.KeyShift | week6/vigenere/vigenere.py:25 | a key letter of either case gets its place in the alphabet, 0 to 25 |
| VigenerePy.Cipher | week6/vigenere/vigenere.py:19-39 | the characters printed are the cipher text of the plaintext under the key |
| VigenerePy.Program | week6/vigenere/vigenere.py:3-39 | usage error for a wrong argument count; key error unless `isalpha` accepts the key, so never for the empty one; otherwise the ciphertext of the line read |
| VigenerePy.CipherText | week6/vigenere/vigenere.py:22-37 | one printed character per plaintext character |
| VigenerePy.CipherTextLetters | week6/vigenere/vigenere.py:22-37 | a non-letter is printed unchanged; the `j`-th letter, counting letters only, keeps its case and moves by the shift of key letter `j % len(key)` |
| VigenerePy.KeyCaseIrrelevant | week6/vigenere/vigenere.py:25 | a lower-cased key gives the same ciphertext |
| VigenerePy.AgreesWithC | week6/vigenere/vigenere.py:19-39 | for every key `isalpha` accepts, the Python ciphertext is that of week2/vigenere/vigenere.c |
| Bleep.StripLeft | week6/bleep/bleep.py:15 | no longer than the input and not starting with whitespace |
| Bleep.StripRight | week6/bleep/bleep.py:15 | no longer than the input and not ending with whitespace |
| Bleep.StripLeftRemovesPrefix | week6/bleep/bleep.py:15 | the left strip is a suffix of the input and everything it drops is whitespace |
| Bleep.StripRightRemovesSuffix | week6/bleep/bleep.py:15 | the right strip is a prefix of the input and everything it drops is whitespace |
| Bleep.Strip | week6/bleep/bleep.py:15 | no longer than the line and not ending with whitespace |
| Bleep.StripKeepsMiddle | week6/bleep/bleep.py:15 | `strip` keeps a slice that neither starts nor ends with whitespace, and everything before and after it is whitespace |
| Bleep.StripIsSlice | week6/bleep/bleep.py:15 | `strip` keeps a contiguous slice of the line |
| Bleep.StripDropsSuffix | week6/bleep/bleep.py:15 | everything after the kept slice is whitespace |
| Bleep.StripUnchanged | week6/bleep/bleep.py:15 | a line neither starting nor ending with whitespace is its own strip |
| Bleep.LowerKeepsSpace | week6/bleep/bleep.py:15 | lower-casing neither makes nor unmakes whitespace |
| Bleep.LowerTwice | week6/bleep/bleep.py:15-26 | lower-casing twice is lower-casing once |
| Bleep.Normalise | week6/bleep/bleep.py:15 | no longer than the line and holding no uppercase letter |
| Bleep.NormaliseIdempotent | week6/bleep/bleep.py:15 | a stored word, already stripped and lower-cased, is unchanged by normalising it again |
| Bleep.Normalised | week6/bleep/bleep.py:14-15 | one normalised word per dictionary line |
| Bleep.BannedMembers | week6/bleep/bleep.py:11-15 | a word is banned exactly when some dictionary line strips and lower-cases to it |
| Bleep.BannedSnoc | week6/bleep/bleep.py:14-15 | each line adds exactly its normalised form to the set |
| Bleep.LoadBanned | week6/bleep/bleep.py:11-15 | the loading loop builds exactly the banned set of the lines, and every stored word is already normalised |
| Bleep.Token | week6/bleep/bleep.py:24 | the longest whitespace-free prefix: followed by whitespace or the end |
| Bleep.Split | week6/bleep/bleep.py:24 | `split()` yields non-empty tokens without whitespace |
| Bleep.TokenOf | week6/bleep/bleep.py:24 | a token followed by whitespace or the end is the first token |
| Bleep.SplitSkipsSpace | week6/bleep/bleep.py:24 | leading whitespace does not change the split |
| Bleep.SplitFirst | week6/bleep/bleep.py:24 | a token followed by whitespace or the end is split off first |
| Bleep.SplitJoin | week6/bleep/bleep.py:24-31 | splitting tokens joined by single spaces gives the tokens back |
| Bleep.Join | week6/bleep/bleep.py:31 | starts with the first token, a single space follows it when more tokens come, and there are at least as many characters as separators |
| Bleep.Stars | week6/bleep/bleep.py:28 | `'*' * n` is `n` asterisks |
| Bleep.Masked | week6/bleep/bleep.py:27-28 | same length as the token; all asterisks when its lower-case form is banned, the token itself otherwise |
| Bleep.Censored | week6/bleep/bleep.py:25-28 | one output token per input token |
| Bleep.CensorWords | week6/bleep/bleep.py:25-28 | a token becomes asterisks of its own length exactly when its lower-case form is banned, and is otherwise left as it is |
| Bleep.CensoredTokens | week6/bleep/bleep.py:25-28 | masking keeps every token non-empty, whitespace-free and of the same length |
| Bleep.CensoredMessage | week6/bleep/bleep.py:24-31 | the printed line splits into exactly the censored tokens, as many as the message had |
| Bleep.CensorIdempotent | week6/bleep/bleep.py:25-28 | censoring a censored message changes nothing |
| Bleep.WholeTokensOnly | week6/bleep/bleep.py:24-28 | matching ignores case but not punctuation: "Darn" is masked and "darn!" is not |
| Bleep.Program | week6/bleep/bleep.py:4-31 | exit 1 for a wrong argument count or a missing dictionary file; otherwise the message's tokens censored and joined by single spaces |

## Left out

- Console and file I/O are parameters. The prompts, `printf` formatting, `print_array`, `print_list`, `triePrint` and `printHashTable` output are not modelled. Only the values printed are.
- `fclose`, and the return values of `fseek`, `fwrite` and `fputc` that resize.c does not check, are not modelled. They are taken to succeed.
- File open failures are not modelled: resize.c exits 2 and 3, whodunit.c exits 2 and 3, recover.c exits 2 and 3, and bleep.py's `open` can fail. Each `Program` starts after the files are open, except that bleep.py's `FileNotFoundError` is the `None` dictionary.
- Write failures are not modelled: whodunit.c exits 7, 9, 10 and 11, and recover.c exits 3 on a failed `fopen` of an output file. Writing is taken to succeed.
- The headers are not read and written as bytes. `fread` of a header is `Some` header or `None`. bmp.h is not part of this model, so its field widths appear only where a contract depends on them, as `DWORD` sizes in `Resize.Dword`.
- Resize.NewHeadersScale: the `int` products `biWidth * n` and `biHeight * n`, and `abs` of `INT_MIN`, are taken on unbounded integers. The model does not capture their 32-bit overflow.
- Resize.Program: the factor is given as the integer `atoi` returns. The parsing of `argv[1]` is not modelled.
- CaesarC.Program: `sscanf("%d")` of a number outside the `int` range is not modelled. The key is an unbounded integer that `sscanf` either reads or does not.
- CaesarC.Message: end of input before any line leaves caesar.c's buffer uninitialised. The model reads it as an empty line.
- CashC.Program and CashPy.Program: the amount is an exact real, not a binary `float`. `round(cash * 100)` is therefore taken on the exact product, and amounts whose cents overflow `int` are not modelled.
- CashPy.Program: `get_float` re-prompts on text that is not a number. That retry is not part of the entries, which are the numbers accepted.
- CreditC.Program: `get_long` re-prompts on text that is not a number. Only the numbers accepted are modelled.
- BinarySearch.Demo: a failed `scanf` leaves `value` uninitialised. That case is not modelled; the value read is a parameter.
- Python's string methods (`isalpha`, `isupper`, `lower`, `upper`, `strip`, `split`, `isdigit`) are modelled on ASCII characters only. Unicode letters, digits and whitespace are not modelled.
- Bleep.Program: `get_string` returning `None` at end of input is not modelled. `print` appends a newline that the modelled output does not show.
- Freeing memory is modelled by counting the nodes released (`Free`, `TrieDelete`, `Unload`, `Clear`). Use-after-free and leaks are outside the model.
- Dictionaries.Dictionary.Load: when `malloc` fails, `load` calls `unload` and the buckets keep pointing at freed nodes. The model keeps those words in the buckets, as the bucket heads do, but does not model that they are freed.
- Dictionaries.Dictionary.Unload: it leaves the bucket heads and `word_count` unchanged, as dictionary.c does. The dangling bucket heads are not modelled.
- Words longer than `LENGTH` overflow the dictionary's word buffer. `LENGTH` comes from dictionary.h, which is not part of this model, so words are taken to fit.
- HashLayout.Bucket: the conversion of `hash % tableSize` to `unsigned int` is not modelled. It changes nothing for tables of fewer than 2^32 buckets.
- HashLayout.Djb2: key characters are added as their code points, 0 to 127. A byte above 127 would be a negative `char` in hash_tables.c.
- HashTables.Demo models the opening of the demonstration program only. The loops that insert 1000 and then delete 800 `perfkey` keys are left out; the grow and shrink steps they exercise are modelled by `Insert`, `Delete` and `Resize`.
- The failure of `malloc` or `calloc` is a boolean parameter of each operation that allocates. Each such parameter says whether that allocation returns NULL.
- NULL arguments to the linked-list, trie and hash-table functions are modelled where the function's result depends on them: `GetSize`, `IsEmpty`, `TrieInsert`, `TrieSearch`, `TrieDelete`, and the NULL key of `Hash`, `Insert`, `Search` and `Delete`. Elsewhere the object is taken to exist.
- Several loop bodies are separate helper methods (`FilterRow`, `ScaleScanline`, `RepeatScanline`, `SearchSlots`, `InsertAll`, `AddWord`, `ClearBuckets`, `LinkAfter`, `Unlink`). Each does what one pass of the source's loop does.
- The hash-table chains are value sequences in an array of buckets, not linked nodes. Aliasing between elements is therefore not modelled there. The singly linked list and the trie use real heap nodes.

## Findings

| source | as written | input that shows it | evidently intended | confidence | as-written member | corrected member |
|---|---|---|---|---|---|---|
| week2/caesar/caesar.c:47 | `key % 26` keeps the sign of a negative key, so `encrypt` shifts letters out of the alphabet | key `-1`, message `abc`: `-1 % 26` is `-1` and the output is `` `ab `` | a negative key is refused, as the message "Key must be a positive integer" says and as caesar.py does | not executed | CaesarC.NegativeKeyLeavesAlphabet, CaesarC.Program | CaesarC.ProgramChecked |
| week2/vigenere/vigenere.c:36-112 | `is_alpha_string` accepts the empty keyword, then `encrypt` declares the zero-length array `int key[0]` and computes `(j + 1) % 0` | keyword `""`, any message with a letter | the empty keyword is refused with the non-alphabetic ones | not executed | VigenereC.EmptyKeywordAccepted, VigenereC.Program | VigenereC.ProgramChecked |
