/**
 * The bucket layout of the chained hash table in week4/hash_tables/hash_tables.c,
 * as values: a table is a sequence of chains (one per bucket, head first), and
 * every chain is a sequence of key/value entries.
 *
 * This module holds the DJB2 string hash, the three layout invariants the
 * table keeps (placement, distinct keys, and the entry count), the key/value
 * map a layout stands for, and the lemmas that say how one head insertion,
 * one in-place update and one unlink change that map.
 */
module HashLayout {

  /** `unsigned long` is 64 bits wide: the DJB2 accumulator wraps modulo 2^64. */
  const WORD: nat := 0x1_0000_0000_0000_0000

  const DJB2_SEED: nat := 5381

  /** One chained element: its own copy of the key, and the value. */
  datatype Entry = Entry(key: string, value: int)

  /** The DJB2 accumulator `h = h * 33 + c` over the whole key, from 5381. */
  function Djb2(key: string): (h: nat)
    ensures h < WORD
  {
    if key == [] then DJB2_SEED
    else (Djb2(key[..|key| - 1]) * 33 + key[|key| - 1] as int) % WORD
  }

  /** The bucket a key belongs to: `hash(key, capacity)`, 0 for a zero capacity. */
  function Bucket(key: string, capacity: nat): (i: nat)
    ensures capacity > 0 ==> i < capacity
    ensures capacity == 0 ==> i == 0
  {
    if capacity == 0 then 0 else Djb2(key) % capacity
  }

  /** Every entry of bucket `i` hashes to `i` under `capacity`. */
  ghost predicate WellPlaced(bs: seq<seq<Entry>>, capacity: nat)
  {
    forall i, j :: 0 <= i < |bs| && 0 <= j < |bs[i]| ==> Bucket(bs[i][j].key, capacity) == i
  }

  ghost predicate DistinctKeys(chain: seq<Entry>)
  {
    forall j, k :: 0 <= j < k < |chain| ==> chain[j].key != chain[k].key
  }

  ghost predicate ChainsDistinct(bs: seq<seq<Entry>>)
  {
    forall i :: 0 <= i < |bs| ==> DistinctKeys(bs[i])
  }

  /** The layout invariant: at least one bucket, every entry in its own bucket, no key twice in a chain. */
  ghost predicate Layout(bs: seq<seq<Entry>>)
  {
    |bs| > 0 && WellPlaced(bs, |bs|) && ChainsDistinct(bs)
  }

  /** No key occurs at two positions of the table. */
  ghost predicate UniqueKeys(bs: seq<seq<Entry>>)
  {
    forall i, j, i', j' ::
      (0 <= i < |bs| && 0 <= j < |bs[i]| && 0 <= i' < |bs| && 0 <= j' < |bs[i']|
       && bs[i][j].key == bs[i'][j'].key) ==> i == i' && j == j'
  }

  /** The total length of all chains. */
  function TotalSize(bs: seq<seq<Entry>>): nat
  {
    if bs == [] then 0 else TotalSize(bs[..|bs| - 1]) + |bs[|bs| - 1]|
  }

  /** The entries present anywhere in the table. */
  ghost function Entries(bs: seq<seq<Entry>>): set<Entry>
  {
    set i, j | 0 <= i < |bs| && 0 <= j < |bs[i]| :: bs[i][j]
  }

  /** The keys present anywhere in the table. */
  ghost function Keys(bs: seq<seq<Entry>>): set<string>
  {
    set e | e in Entries(bs) :: e.key
  }

  /** The key/value map a valid layout stands for. */
  ghost function Contents(bs: seq<seq<Entry>>): map<string, int>
    requires Layout(bs)
  {
    map k | k in Keys(bs) :: var e :| e in Entries(bs) && e.key == k; e.value
  }

  /** Placement plus distinct chains rule out a key anywhere else in the table. */
  lemma LayoutUniqueKeys(bs: seq<seq<Entry>>)
    requires Layout(bs)
    ensures UniqueKeys(bs)
  {
    forall i, j, i', j' |
      0 <= i < |bs| && 0 <= j < |bs[i]| && 0 <= i' < |bs| && 0 <= j' < |bs[i']|
      && bs[i][j].key == bs[i'][j'].key
      ensures i == i' && j == j'
    {
      assert i == Bucket(bs[i][j].key, |bs|) == i';
      assert DistinctKeys(bs[i]);
    }
  }

  /** The entry at a position is what the map holds for its key. */
  lemma ContentsAt(bs: seq<seq<Entry>>, i: nat, j: nat)
    requires Layout(bs)
    requires i < |bs| && j < |bs[i]|
    ensures bs[i][j].key in Contents(bs) && Contents(bs)[bs[i][j].key] == bs[i][j].value
  {
    LayoutUniqueKeys(bs);
    assert bs[i][j] in Entries(bs);
  }

  /** A key absent from its own bucket is absent from the map. */
  lemma NotInContents(bs: seq<seq<Entry>>, k: string)
    requires Layout(bs)
    requires forall x :: x in bs[Bucket(k, |bs|)] ==> x.key != k
    ensures k !in Contents(bs)
  {
    forall e | e in Entries(bs) ensures e.key != k {
      var i, j :| 0 <= i < |bs| && 0 <= j < |bs[i]| && bs[i][j] == e;
      if i == Bucket(k, |bs|) {
        assert bs[i][j] in bs[Bucket(k, |bs|)];
      }
    }
  }

  /** A layout of `n` empty buckets holds nothing. */
  lemma EmptyLayout(n: nat)
    requires n > 0
    ensures Layout(seq(n, _ => []))
    ensures TotalSize(seq(n, _ => [])) == 0
    ensures Entries(seq(n, _ => [])) == {}
    ensures Contents(seq(n, _ => [])) == map[]
  {
    var bs: seq<seq<Entry>> := seq(n, _ => []);
    TotalSizeOfEmpty(bs);
  }

  lemma {:induction false} TotalSizeOfEmpty(bs: seq<seq<Entry>>)
    requires forall i :: 0 <= i < |bs| ==> bs[i] == []
    ensures TotalSize(bs) == 0
  {
    if bs != [] {
      TotalSizeOfEmpty(bs[..|bs| - 1]);
    }
  }

  /** Replacing one chain changes the total length by the difference of the two chains. */
  lemma {:induction false} TotalSizeUpdate(bs: seq<seq<Entry>>, h: nat, c: seq<Entry>)
    requires h < |bs|
    ensures TotalSize(bs[h := c]) + |bs[h]| == TotalSize(bs) + |c|
  {
    var last := |bs| - 1;
    assert bs[h := c][..last] == if h == last then bs[..last] else bs[..last][h := c];
    if h < last {
      TotalSizeUpdate(bs[..last], h, c);
    }
  }

  /** Entries of a prefix grow by the chain appended to it. */
  lemma EntriesSnoc(bs: seq<seq<Entry>>, c: seq<Entry>)
    ensures Entries(bs + [c]) == Entries(bs) + (set x | x in c)
  {
    var bs' := bs + [c];
    forall x | x in Entries(bs') ensures x in Entries(bs) + (set y | y in c) {
      var i, j :| 0 <= i < |bs'| && 0 <= j < |bs'[i]| && bs'[i][j] == x;
      if i < |bs| {
        assert bs[i][j] == x;
      }
    }
    forall x | x in Entries(bs) + (set y | y in c) ensures x in Entries(bs') {
      if x in Entries(bs) {
        var i, j :| 0 <= i < |bs| && 0 <= j < |bs[i]| && bs[i][j] == x;
        assert bs'[i][j] == x;
      } else {
        var j :| 0 <= j < |c| && c[j] == x;
        assert bs'[|bs|][j] == x;
      }
    }
  }

  /** A layout's map gains exactly the pair of an entry of a fresh key added to its entries. */
  lemma ContentsAdd(bs: seq<seq<Entry>>, bs': seq<seq<Entry>>, e: Entry)
    requires Layout(bs) && Layout(bs')
    requires Entries(bs') == Entries(bs) + {e}
    requires e.key !in Keys(bs)
    ensures Contents(bs') == Contents(bs)[e.key := e.value]
  {
    var m, m' := Contents(bs), Contents(bs');
    assert Keys(bs') == Keys(bs) + {e.key};
    forall k | k in m' ensures m'[k] == m[e.key := e.value][k] {
      if k != e.key {
        var x :| x in Entries(bs) && x.key == k;
        EntryValue(bs, x);
        EntryValue(bs', x);
      } else {
        EntryValue(bs', e);
      }
    }
  }

  /** A layout's map loses exactly the key of an entry removed from its entries. */
  lemma ContentsRemove(bs: seq<seq<Entry>>, bs': seq<seq<Entry>>, e: Entry)
    requires Layout(bs) && Layout(bs')
    requires e in Entries(bs)
    requires Entries(bs') == Entries(bs) - {e}
    ensures Contents(bs') == Contents(bs) - {e.key}
  {
    var m, m' := Contents(bs), Contents(bs');
    forall x | x in Entries(bs) && x.key == e.key ensures x == e {
      EntryValue(bs, x);
      EntryValue(bs, e);
    }
    assert Keys(bs') == Keys(bs) - {e.key};
    forall k | k in m' ensures m'[k] == m[k] {
      var x :| x in Entries(bs') && x.key == k;
      EntryValue(bs, x);
      EntryValue(bs', x);
    }
  }

  /** A layout's map changes only at the key whose entry was swapped for one with a new value. */
  lemma ContentsReplace(bs: seq<seq<Entry>>, bs': seq<seq<Entry>>, e: Entry, v: int)
    requires Layout(bs) && Layout(bs')
    requires e in Entries(bs)
    requires Entries(bs') == Entries(bs) - {e} + {Entry(e.key, v)}
    ensures Contents(bs') == Contents(bs)[e.key := v]
  {
    ReplaceKeys(bs, bs', e, v);
    var m, m' := Contents(bs), Contents(bs');
    forall k | k in m' ensures m'[k] == m[e.key := v][k] {
      if k != e.key {
        var x :| x in Entries(bs') && x.key == k;
        EntryValue(bs, x);
        EntryValue(bs', x);
      } else {
        EntryValue(bs', Entry(e.key, v));
      }
    }
  }

  lemma ReplaceKeys(bs: seq<seq<Entry>>, bs': seq<seq<Entry>>, e: Entry, v: int)
    requires e in Entries(bs)
    requires Entries(bs') == Entries(bs) - {e} + {Entry(e.key, v)}
    ensures Keys(bs') == Keys(bs)
  {
    forall k | k in Keys(bs) ensures k in Keys(bs') {
      var x :| x in Entries(bs) && x.key == k;
      if x == e {
        assert Entry(e.key, v) in Entries(bs');
      } else {
        assert x in Entries(bs');
      }
    }
    forall k | k in Keys(bs') ensures k in Keys(bs) {
      var x :| x in Entries(bs') && x.key == k;
      if x == Entry(e.key, v) {
        assert e in Entries(bs);
      } else {
        assert x in Entries(bs);
      }
    }
  }

  /** In a valid layout, an entry's key maps to that entry's value. */
  lemma EntryValue(bs: seq<seq<Entry>>, x: Entry)
    requires Layout(bs)
    requires x in Entries(bs)
    ensures x.key in Contents(bs) && Contents(bs)[x.key] == x.value
  {
    LayoutUniqueKeys(bs);
    var i, j :| 0 <= i < |bs| && 0 <= j < |bs[i]| && bs[i][j] == x;
    forall y | y in Entries(bs) && y.key == x.key ensures y == x {
      var i', j' :| 0 <= i' < |bs| && 0 <= j' < |bs[i']| && bs[i'][j'] == y;
    }
  }

  /** Head insertion of an entry whose key its bucket lacks keeps the layout valid. */
  lemma PrependLayout(bs: seq<seq<Entry>>, e: Entry)
    requires Layout(bs)
    requires forall x :: x in bs[Bucket(e.key, |bs|)] ==> x.key != e.key
    ensures var h := Bucket(e.key, |bs|); Layout(bs[h := [e] + bs[h]])
  {
    var h := Bucket(e.key, |bs|);
    var bs' := bs[h := [e] + bs[h]];
    assert DistinctKeys(bs'[h]) by {
      assert DistinctKeys(bs[h]);
      forall j, k | 0 <= j < k < |bs'[h]| ensures bs'[h][j].key != bs'[h][k].key {
        assert bs'[h][k] == bs[h][k - 1];
        if j > 0 {
          assert bs'[h][j] == bs[h][j - 1];
        }
      }
    }
    assert WellPlaced(bs', |bs'|) by {
      forall i, j | 0 <= i < |bs'| && 0 <= j < |bs'[i]|
        ensures Bucket(bs'[i][j].key, |bs'|) == i
      {
        if i == h && j > 0 {
          assert bs'[i][j] == bs[i][j - 1];
        }
      }
    }
  }

  /** Head insertion adds exactly one entry. */
  lemma PrependEntries(bs: seq<seq<Entry>>, h: nat, e: Entry)
    requires h < |bs|
    ensures Entries(bs[h := [e] + bs[h]]) == Entries(bs) + {e}
  {
    var bs' := bs[h := [e] + bs[h]];
    forall x | x in Entries(bs') ensures x in Entries(bs) + {e} {
      var i, j :| 0 <= i < |bs'| && 0 <= j < |bs'[i]| && bs'[i][j] == x;
      if i == h && j > 0 {
        assert bs[i][j - 1] == x;
      } else if i != h {
        assert bs[i][j] == x;
      }
    }
    forall x | x in Entries(bs) + {e} ensures x in Entries(bs') {
      if x == e {
        assert bs'[h][0] == e;
      } else {
        var i, j :| 0 <= i < |bs| && 0 <= j < |bs[i]| && bs[i][j] == x;
        if i == h {
          assert bs'[i][j + 1] == x;
        } else {
          assert bs'[i][j] == x;
        }
      }
    }
  }

  /**
   * Head insertion of an entry whose key its bucket does not hold yet: the
   * layout stays valid, the count grows by one and the map gains the pair.
   */
  lemma PrependEntry(bs: seq<seq<Entry>>, e: Entry)
    requires Layout(bs)
    requires forall x :: x in bs[Bucket(e.key, |bs|)] ==> x.key != e.key
    ensures var h := Bucket(e.key, |bs|); var bs' := bs[h := [e] + bs[h]];
      && Layout(bs')
      && TotalSize(bs') == TotalSize(bs) + 1
      && Entries(bs') == Entries(bs) + {e}
      && Contents(bs') == Contents(bs)[e.key := e.value]
  {
    var h := Bucket(e.key, |bs|);
    var bs' := bs[h := [e] + bs[h]];
    TotalSizeUpdate(bs, h, [e] + bs[h]);
    PrependLayout(bs, e);
    PrependEntries(bs, h, e);
    NotInContents(bs, e.key);
    ContentsAdd(bs, bs', e);
  }

  /** An entry stored at one position occurs at no other position. */
  lemma EntryAtOnePosition(bs: seq<seq<Entry>>, h: nat, j: nat, i': nat, j': nat)
    requires Layout(bs)
    requires h < |bs| && j < |bs[h]| && i' < |bs| && j' < |bs[i']|
    ensures bs[i'][j'].key == bs[h][j].key ==> i' == h && j' == j
  {
    LayoutUniqueKeys(bs);
  }

  /** Overwriting the value of the entry at `(h, j)` keeps the layout valid. */
  lemma ReplaceLayout(bs: seq<seq<Entry>>, h: nat, j: nat, v: int)
    requires Layout(bs)
    requires h < |bs| && j < |bs[h]|
    ensures Layout(bs[h := bs[h][j := Entry(bs[h][j].key, v)]])
  {
    var bs' := bs[h := bs[h][j := Entry(bs[h][j].key, v)]];
    var c: seq<Entry> := bs'[h];
    assert forall k :: 0 <= k < |c| ==> c[k].key == bs[h][k].key;
    assert DistinctKeys(bs[h]);
  }

  /** Overwriting the value of the entry at `(h, j)` swaps that one entry. */
  lemma ReplaceEntries(bs: seq<seq<Entry>>, h: nat, j: nat, v: int)
    requires Layout(bs)
    requires h < |bs| && j < |bs[h]|
    ensures var e := bs[h][j];
      Entries(bs[h := bs[h][j := Entry(e.key, v)]]) == Entries(bs) - {e} + {Entry(e.key, v)}
  {
    var e := bs[h][j];
    var e' := Entry(e.key, v);
    var bs' := bs[h := bs[h][j := e']];
    forall x | x in Entries(bs') ensures x in Entries(bs) - {e} + {e'} {
      var i, k :| 0 <= i < |bs'| && 0 <= k < |bs'[i]| && bs'[i][k] == x;
      if i != h || k != j {
        assert bs[i][k] == x;
        EntryAtOnePosition(bs, h, j, i, k);
      }
    }
    forall x | x in Entries(bs) - {e} + {e'} ensures x in Entries(bs') {
      if x == e' {
        assert bs'[h][j] == x;
      } else {
        var i, k :| 0 <= i < |bs| && 0 <= k < |bs[i]| && bs[i][k] == x;
        assert i != h || k != j;
        assert bs'[i][k] == x;
      }
    }
  }

  /**
   * Overwriting the value stored for a key in place: the layout stays valid,
   * the count is unchanged and the map changes only at that key.
   */
  lemma ReplaceEntry(bs: seq<seq<Entry>>, h: nat, j: nat, v: int)
    requires Layout(bs)
    requires h < |bs| && j < |bs[h]|
    ensures var k := bs[h][j].key; var bs' := bs[h := bs[h][j := Entry(k, v)]];
      && Layout(bs')
      && TotalSize(bs') == TotalSize(bs)
      && Contents(bs') == Contents(bs)[k := v]
  {
    var e := bs[h][j];
    var bs' := bs[h := bs[h][j := Entry(e.key, v)]];
    TotalSizeUpdate(bs, h, bs[h][j := Entry(e.key, v)]);
    ReplaceLayout(bs, h, j, v);
    ReplaceEntries(bs, h, j, v);
    assert e in Entries(bs);
    ContentsReplace(bs, bs', e, v);
  }

  /** Unlinking the entry at `(h, j)` keeps the layout valid. */
  lemma RemoveLayout(bs: seq<seq<Entry>>, h: nat, j: nat)
    requires Layout(bs)
    requires h < |bs| && j < |bs[h]|
    ensures Layout(bs[h := bs[h][..j] + bs[h][j + 1..]])
  {
    var c := bs[h][..j] + bs[h][j + 1..];
    var bs' := bs[h := c];
    assert forall k :: 0 <= k < |c| ==> c[k] == bs[h][if k < j then k else k + 1];
    assert DistinctKeys(c) by {
      assert DistinctKeys(bs[h]);
    }
    assert WellPlaced(bs', |bs'|) by {
      forall i, k | 0 <= i < |bs'| && 0 <= k < |bs'[i]|
        ensures Bucket(bs'[i][k].key, |bs'|) == i
      {
        if i == h {
          assert bs'[i][k] == bs[h][if k < j then k else k + 1];
        }
      }
    }
  }

  /** Unlinking the entry at `(h, j)` removes exactly that entry. */
  lemma RemoveEntries(bs: seq<seq<Entry>>, h: nat, j: nat)
    requires Layout(bs)
    requires h < |bs| && j < |bs[h]|
    ensures Entries(bs[h := bs[h][..j] + bs[h][j + 1..]]) == Entries(bs) - {bs[h][j]}
  {
    RemovedGone(bs, h, j);
    RemovedKept(bs, h, j);
  }

  /** After the unlink, every entry left was in the table and is not the one removed. */
  lemma RemovedGone(bs: seq<seq<Entry>>, h: nat, j: nat)
    requires Layout(bs)
    requires h < |bs| && j < |bs[h]|
    ensures Entries(bs[h := bs[h][..j] + bs[h][j + 1..]]) <= Entries(bs) - {bs[h][j]}
  {
    var e := bs[h][j];
    var c := bs[h][..j] + bs[h][j + 1..];
    var bs' := bs[h := c];
    forall x | x in Entries(bs') ensures x in Entries(bs) - {e} {
      var i, k :| 0 <= i < |bs'| && 0 <= k < |bs'[i]| && bs'[i][k] == x;
      var k' := if i == h && k >= j then k + 1 else k;
      assert bs[i][k'] == x;
      EntryAtOnePosition(bs, h, j, i, k');
    }
  }

  /** After the unlink, every other entry of the table is still there. */
  lemma RemovedKept(bs: seq<seq<Entry>>, h: nat, j: nat)
    requires h < |bs| && j < |bs[h]|
    ensures Entries(bs) - {bs[h][j]} <= Entries(bs[h := bs[h][..j] + bs[h][j + 1..]])
  {
    var e := bs[h][j];
    var c := bs[h][..j] + bs[h][j + 1..];
    var bs' := bs[h := c];
    forall x | x in Entries(bs) - {e} ensures x in Entries(bs') {
      var i, k :| 0 <= i < |bs| && 0 <= k < |bs[i]| && bs[i][k] == x;
      if i == h {
        assert k != j;
        assert bs'[i][if k < j then k else k - 1] == x;
      } else {
        assert bs'[i][k] == x;
      }
    }
  }

  /**
   * Unlinking the entry at `(h, j)`: the layout stays valid, the count drops
   * by one and the map loses that entry's key.
   */
  lemma RemoveEntry(bs: seq<seq<Entry>>, h: nat, j: nat)
    requires Layout(bs)
    requires h < |bs| && j < |bs[h]|
    ensures var bs' := bs[h := bs[h][..j] + bs[h][j + 1..]];
      && Layout(bs')
      && TotalSize(bs') + 1 == TotalSize(bs)
      && Contents(bs') == Contents(bs) - {bs[h][j].key}
  {
    var bs' := bs[h := bs[h][..j] + bs[h][j + 1..]];
    TotalSizeUpdate(bs, h, bs[h][..j] + bs[h][j + 1..]);
    RemoveLayout(bs, h, j);
    RemoveEntries(bs, h, j);
    assert bs[h][j] in Entries(bs);
    ContentsRemove(bs, bs', bs[h][j]);
  }

  /** Two valid layouts holding the same entries stand for the same map. */
  lemma SameEntriesSameContents(bs: seq<seq<Entry>>, bs': seq<seq<Entry>>)
    requires Layout(bs) && Layout(bs')
    requires Entries(bs) == Entries(bs')
    ensures Contents(bs) == Contents(bs')
  {
    assert Keys(bs) == Keys(bs');
    forall k | k in Keys(bs) ensures Contents(bs)[k] == Contents(bs')[k] {
      var x :| x in Entries(bs) && x.key == k;
      EntryValue(bs, x);
      EntryValue(bs', x);
    }
  }

  /** The entries before position `(i, j)`, bucket by bucket and chain order within a bucket. */
  ghost function Moved(bs: seq<seq<Entry>>, i: nat, j: nat): set<Entry>
    requires i < |bs| && j <= |bs[i]|
  {
    Entries(bs[..i]) + (set y | y in bs[i][..j])
  }

  /**
   * While rehashing, the entry at `(i, j)` of the old layout has a key that no
   * entry already moved (those before it, bucket by bucket) has.
   */
  lemma NotYetMoved(bs: seq<seq<Entry>>, i: nat, j: nat, x: Entry)
    requires Layout(bs)
    requires i < |bs| && j < |bs[i]|
    requires x in Moved(bs, i, j)
    ensures x.key != bs[i][j].key
  {
    if x in Entries(bs[..i]) {
      var i', j' :| 0 <= i' < i && 0 <= j' < |bs[..i][i']| && bs[..i][i'][j'] == x;
      EntryAtOnePosition(bs, i, j, i', j');
    } else {
      var j' :| 0 <= j' < j && bs[i][..j][j'] == x;
      EntryAtOnePosition(bs, i, j, i, j');
    }
  }

  /** Passing bucket `i` adds its chain to the count and its entries to those seen. */
  lemma NextBucket(ob: seq<seq<Entry>>, i: nat)
    requires i < |ob|
    ensures TotalSize(ob[..i + 1]) == TotalSize(ob[..i]) + |ob[i]|
    ensures Entries(ob[..i + 1]) == Moved(ob, i, |ob[i]|)
  {
    assert ob[..i + 1] == ob[..i] + [ob[i]];
    assert ob[i][..|ob[i]|] == ob[i];
    EntriesSnoc(ob[..i], ob[i]);
  }
}
