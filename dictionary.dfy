/**
 * The speller's dictionary of week4/speller/dictionary.c: a global
 * table of 26 chains keyed by the first letter of each word, a global word
 * counter, and case-insensitive lookup.
 *
 * Each chain is modelled as the sequence of the words its nodes hold, from
 * the bucket head on; the dictionary file is the sequence of words that
 * `fscanf` reads, and a failing `fopen` or `malloc` is a parameter of `Load`.
 */
module Dictionaries {
  import opened Basics
  import opened Ascii

  /** `N`: the number of buckets. */
  const N := 26

  /** `word_count` is an `unsigned int`: it counts modulo 2^32. */
  const UINT_RANGE := 0x1_0000_0000

  /** `hash`: the alphabet index of the lower-cased first character, 0 for anything but a letter (and for ""). */
  function Hash(word: string): (h: nat)
    ensures h < N
    ensures |word| > 0 && IsAlpha(word[0]) ==> h == ToLower(word[0]) as int - 'a' as int
    ensures (|word| == 0 || !IsAlpha(word[0])) ==> h == 0
  {
    var c := if |word| == 0 then '\0' else ToLower(word[0]);
    if c < 'a' || c > 'z' then 0 else c as int - 'a' as int
  }

  /** Words equal ignoring case fall into the same bucket, since `hash` lower-cases the first letter. */
  lemma HashIgnoresCase(a: string, b: string)
    requires EqualIgnoringCase(a, b)
    ensures Hash(a) == Hash(b)
  {
    if |a| > 0 {
      assert ToLower(a[0]) == ToLower(b[0]);
      assert IsAlpha(a[0]) <==> IsAlpha(ToLower(a[0]));
      assert IsAlpha(b[0]) <==> IsAlpha(ToLower(b[0]));
    }
  }

  /** The chain of bucket `i` after `words` have been inserted, one by one, at the head of their buckets. */
  function Chain(words: seq<string>, i: int): (c: seq<string>)
    ensures forall w :: w in c <==> w in words && Hash(w) == i
  {
    if words == [] then []
    else
      var last := words[|words| - 1];
      var rest := Chain(words[..|words| - 1], i);
      assert forall w :: w in words <==> w in words[..|words| - 1] || w == last;
      if Hash(last) == i then [last] + rest else rest
  }

  /** The whole table of chains after `words` have been inserted. */
  function Table(words: seq<string>): (t: seq<seq<string>>)
    ensures |t| == N
  {
    seq(N, i => Chain(words, i))
  }

  /** Loading one more word puts it at the head of its own bucket's chain and changes no other chain. */
  lemma TableSnoc(words: seq<string>, k: nat)
    requires k < |words|
    ensures var h := Hash(words[k]);
      Table(words[..k + 1]) == Table(words[..k])[h := [words[k]] + Table(words[..k])[h]]
  {
    assert words[..k + 1][..k] == words[..k];
  }

  /** Counting one more word modulo 2^32. */
  lemma CountStep(c: int, k: nat)
    ensures (c + k + 1) % UINT_RANGE == ((c + k) % UINT_RANGE + 1) % UINT_RANGE
  {
  }

  /** The total number of nodes in a table of chains. */
  function TotalLength(table: seq<seq<string>>): nat
  {
    if table == [] then 0 else TotalLength(table[..|table| - 1]) + |table[|table| - 1]|
  }

  /** Every word of the input lands in exactly one chain, so the chains hold as many nodes as there were words. */
  lemma {:induction false} ChainsPartition(words: seq<string>, k: nat)
    requires k <= N
    ensures TotalLength(seq(k, i => Chain(words, i))) == |FilterBelow(words, k)|
    decreases k
  {
    if k > 0 {
      var table := seq(k, i => Chain(words, i));
      assert table[..k - 1] == seq(k - 1, i => Chain(words, i));
      ChainsPartition(words, k - 1);
      ChainLengths(words, k - 1);
    } else {
      FilterNone(words);
    }
  }

  /** No word has a bucket below 0. */
  lemma {:induction false} FilterNone(words: seq<string>)
    ensures FilterBelow(words, 0) == []
  {
    if words != [] {
      FilterNone(words[..|words| - 1]);
    }
  }

  /** The words whose bucket is below `k`. */
  function FilterBelow(words: seq<string>, k: nat): seq<string>
  {
    if words == [] then []
    else
      var last := words[|words| - 1];
      FilterBelow(words[..|words| - 1], k) + if Hash(last) < k then [last] else []
  }

  /** Raising the bucket bound from `k` to `k + 1` adds the chain of bucket `k`. */
  lemma {:induction false} ChainLengths(words: seq<string>, k: nat)
    ensures |FilterBelow(words, k + 1)| == |FilterBelow(words, k)| + |Chain(words, k)|
  {
    if words != [] {
      ChainLengths(words[..|words| - 1], k);
    }
  }

  /** All words have a bucket below `N`. */
  lemma {:induction false} FilterAll(words: seq<string>)
    ensures FilterBelow(words, N) == words
  {
    if words != [] {
      FilterAll(words[..|words| - 1]);
    }
  }

  /**
   * What `check` computes on a loaded table is the dictionary question: the
   * word's bucket holds a word equal to it ignoring case exactly when some
   * loaded word is.
   */
  lemma CheckFindsLoaded(words: seq<string>, word: string)
    ensures (exists w | w in Chain(words, Hash(word)) :: EqualIgnoringCase(w, word))
        <==> (exists w | w in words :: EqualIgnoringCase(w, word))
  {
    if w :| w in words && EqualIgnoringCase(w, word) {
      HashIgnoresCase(w, word);
    }
  }

  /** A load of `words` into empty buckets leaves exactly one node per word in the table. */
  lemma LoadedSize(words: seq<string>)
    ensures TotalLength(seq(N, i => Chain(words, i))) == |words|
  {
    ChainsPartition(words, N);
    FilterAll(words);
  }

  class Dictionary {
    /** `hashtable`: the bucket chains. */
    var hashtable: array<seq<string>>
    /** `word_count`. */
    var wordCount: nat

    ghost predicate Valid()
      reads this
    {
      hashtable.Length == N && wordCount < UINT_RANGE
    }

    /** The globals before anything is loaded: NULL buckets, a zero count. */
    constructor ()
      ensures Valid() && fresh(hashtable) && wordCount == 0
      ensures forall i :: 0 <= i < N ==> hashtable[i] == []
    {
      hashtable := new seq<string>[N](_ => []);
      wordCount := 0;
    }

    /**
     * `load`: empties the buckets (without resetting the count), then
     * inserts the words in order at the head of their buckets, counting each
     * one, duplicates included. A file that cannot be opened loads nothing;
     * a failed allocation at word `k` stops the load after the first `k`
     * words. Either failure returns false.
     */
    method Load(words: seq<string>, openFails: bool, allocFailsAt: Option<nat>) returns (ok: bool)
      requires Valid()
      modifies hashtable, this
      ensures Valid() && hashtable == old(hashtable)
      ensures ok <==> !openFails && (allocFailsAt.None? || allocFailsAt.value >= |words|)
      ensures var loaded := if openFails then 0
                            else if allocFailsAt.Some? && allocFailsAt.value < |words| then allocFailsAt.value
                            else |words|;
        && (forall i :: 0 <= i < N ==> hashtable[i] == Chain(words[..loaded], i))
        && wordCount == (old(wordCount) + loaded) % UINT_RANGE
    {
      ClearBuckets();
      if openFails {
        var released;
        ok, released := Unload();
        return false;
      }
      ok := InsertAll(words, allocFailsAt);
    }

    /** The first loop of `load`: every bucket head set to NULL. */
    method ClearBuckets()
      requires Valid()
      modifies hashtable
      ensures Valid() && wordCount == old(wordCount)
      ensures hashtable[..] == Table([])
    {
      for i := 0 to N
        invariant forall j :: 0 <= j < i ==> hashtable[j] == []
      {
        hashtable[i] := [];
      }
    }

    /**
     * The second loop of `load`: the words inserted one by one into empty
     * buckets, until the allocation of word `allocFailsAt` fails, which
     * unloads and reports false.
     */
    method InsertAll(words: seq<string>, allocFailsAt: Option<nat>) returns (ok: bool)
      requires Valid() && hashtable[..] == Table([])
      modifies hashtable, this
      ensures Valid() && hashtable == old(hashtable)
      ensures ok <==> allocFailsAt.None? || allocFailsAt.value >= |words|
      ensures var loaded := if allocFailsAt.Some? && allocFailsAt.value < |words| then allocFailsAt.value else |words|;
        && hashtable[..] == Table(words[..loaded])
        && wordCount == (old(wordCount) + loaded) % UINT_RANGE
    {
      assert words[..0] == [];
      for k := 0 to |words|
        invariant Valid() && hashtable == old(hashtable)
        invariant hashtable[..] == Table(words[..k])
        invariant wordCount == (old(wordCount) + k) % UINT_RANGE
        invariant allocFailsAt.None? || allocFailsAt.value >= k
      {
        if allocFailsAt == Some(k) {
          var released;
          ok, released := Unload();
          return false;
        }
        TableSnoc(words, k);
        CountStep(old(wordCount), k);
        AddWord(words[k]);
      }
      assert words[..|words|] == words;
      return true;
    }

    /** The body of `load`'s loop: a new node for `word` at the head of its bucket, and one more in the count. */
    method AddWord(word: string)
      requires Valid()
      modifies hashtable, this
      ensures Valid() && hashtable == old(hashtable)
      ensures hashtable[..] == old(hashtable[..])[Hash(word) := [word] + old(hashtable[Hash(word)])]
      ensures wordCount == (old(wordCount) + 1) % UINT_RANGE
    {
      var index := Hash(word);
      hashtable[index] := [word] + hashtable[index];
      wordCount := (wordCount + 1) % UINT_RANGE;
    }

    /** `size`: the word counter as it stands. */
    function Size(): (n: nat)
      reads this
      requires Valid()
      ensures n < UINT_RANGE
    {
      wordCount
    }

    /** `check`: whether the word's bucket holds a word equal to it ignoring case. */
    method Check(word: string) returns (found: bool)
      requires Valid()
      ensures found <==> exists w | w in hashtable[Hash(word)] :: EqualIgnoringCase(w, word)
    {
      var index := Hash(word);
      var chain := hashtable[index];
      var j := 0;
      while j < |chain|
        invariant 0 <= j <= |chain|
        invariant forall m :: 0 <= m < j ==> !EqualIgnoringCase(chain[m], word)
      {
        if EqualIgnoringCase(chain[j], word) {
          return true;
        }
        j := j + 1;
      }
      return false;
    }

    /**
     * `unload`: walks every node of every bucket to free it and reports
     * success; it leaves the bucket heads and the counter as they were. The
     * second result counts the nodes freed.
     */
    method Unload() returns (ok: bool, released: nat)
      requires Valid()
      ensures ok && released == TotalLength(hashtable[..])
    {
      released := 0;
      for i := 0 to N
        invariant released == TotalLength(hashtable[..i])
      {
        var cursor := 0;
        while cursor < |hashtable[i]|
          invariant 0 <= cursor <= |hashtable[i]|
          invariant released == TotalLength(hashtable[..i]) + cursor
        {
          cursor := cursor + 1;
          released := released + 1;
        }
        assert hashtable[..i + 1][..i] == hashtable[..i];
      }
      assert hashtable[..N] == hashtable[..];
      return true, released;
    }
  }
}
