/**
 * `recover`: carving JPEG files out of a raw memory-card image. The image
 * is read in 512-byte blocks; a block that begins with a JPEG signature
 * opens a new output file `000.jpg`, `001.jpg`, ..., and every block from
 * the first signature on is written to the file opened last.
 */
module Recover {
  import opened Basics

  const BLOCK_SIZE: nat := 512

  /** The name buffer: room for "###.jpg" and its NUL. */
  const FILENAME_SIZE: nat := 8

  /** The JPEG test on the first four bytes of a block: ff d8 ff, then a byte whose high nibble is e. */
  predicate IsSignature(b: seq<byte>)
    requires |b| >= 4
    ensures IsSignature(b) <==> b[0] == 0xff && b[1] == 0xd8 && b[2] == 0xff && 0xe0 <= b[3] <= 0xef
  {
    HighNibble(b[3]);
    b[0] == 0xff && b[1] == 0xd8 && b[2] == 0xff && (b[3] as bv8) & 0xf0 == 0xe0
  }

  /** The mask test accepts exactly the sixteen bytes 0xe0 through 0xef. */
  lemma HighNibble(x: byte)
    ensures (x as bv8) & 0xf0 == 0xe0 <==> 0xe0 <= x <= 0xef
  {
    var v := x as bv8;
    assert v & 0xf0 == 0xe0 <==> 0xe0 <= v <= 0xef;
    assert v as int == x;
  }

  /** Every block has the full 512 bytes. */
  predicate Whole(bs: seq<seq<byte>>)
  {
    forall i :: 0 <= i < |bs| ==> |bs[i]| == BLOCK_SIZE
  }

  /** The blocks `fread` delivers: each full block in order, a trailing partial block dropped. */
  function Blocks(data: seq<byte>): (bs: seq<seq<byte>>)
    ensures Whole(bs)
    decreases |data|
  {
    if |data| < BLOCK_SIZE then [] else [data[..BLOCK_SIZE]] + Blocks(data[BLOCK_SIZE..])
  }

  /** Reading a whole number of blocks and then more reads those blocks first. */
  lemma {:induction false} BlocksAppend(d: seq<byte>, t: seq<byte>)
    requires |d| % BLOCK_SIZE == 0
    ensures Blocks(d + t) == Blocks(d) + Blocks(t)
    decreases |d|
  {
    if |d| > 0 {
      assert (d + t)[..BLOCK_SIZE] == d[..BLOCK_SIZE];
      assert (d + t)[BLOCK_SIZE..] == d[BLOCK_SIZE..] + t;
      BlocksAppend(d[BLOCK_SIZE..], t);
    } else {
      assert d + t == t;
    }
  }

  lemma {:induction false} FlattenAppend<T>(a: seq<seq<T>>, b: seq<seq<T>>)
    ensures Flatten(a + b) == Flatten(a) + Flatten(b)
    decreases |b|
  {
    if b == [] {
      assert a + b == a;
    } else {
      var init := b[..|b| - 1];
      assert a + b == (a + init) + [b[|b| - 1]];
      FlattenSnoc(a + init, b[|b| - 1]);
      FlattenAppend(a, init);
      assert b == init + [b[|b| - 1]];
      FlattenSnoc(init, b[|b| - 1]);
    }
  }

  /**
   * Only the trailing partial block is lost: the blocks read, put back
   * together, are the data up to its last multiple of 512 bytes.
   */
  lemma {:induction false} BlocksCover(data: seq<byte>)
    ensures |Blocks(data)| == |data| / BLOCK_SIZE
    ensures Flatten(Blocks(data)) == data[..|data| - |data| % BLOCK_SIZE]
    decreases |data|
  {
    if |data| >= BLOCK_SIZE {
      var rest := data[BLOCK_SIZE..];
      BlocksCover(rest);
      FlattenAppend([data[..BLOCK_SIZE]], Blocks(rest));
      assert Flatten([data[..BLOCK_SIZE]]) == Flatten([]) + data[..BLOCK_SIZE];
      assert |rest| % BLOCK_SIZE == |data| % BLOCK_SIZE;
      assert data[..|data| - |data| % BLOCK_SIZE] ==
        data[..BLOCK_SIZE] + rest[..|rest| - |rest| % BLOCK_SIZE];
    }
  }

  /**
   * One block through the state machine; `files` holds the bytes written to
   * each file so far. A signature opens one more file; otherwise the block
   * goes to the open file, or nowhere while none is open. Whatever is
   * written is appended to what was written before.
   */
  function Step(files: seq<seq<byte>>, b: seq<byte>): (r: seq<seq<byte>>)
    requires |b| >= 4
    ensures |r| == |files| + (if IsSignature(b) then 1 else 0)
    ensures files != [] || IsSignature(b) ==> Flatten(r) == Flatten(files) + b
    ensures files == [] && !IsSignature(b) ==> r == []
  {
    if IsSignature(b) then
      FlattenSnoc(files, b);
      files + [b]
    else if files == [] then []
    else
      AppendToLast(files, b);
      files[..|files| - 1] + [files[|files| - 1] + b]
  }

  /**
   * The contents of `000.jpg`, `001.jpg`, ... after the blocks `bs`: at
   * most one file per block, each a non-empty run of whole blocks.
   */
  function Recovered(bs: seq<seq<byte>>): (files: seq<seq<byte>>)
    requires Whole(bs)
    ensures |files| <= |bs|
    ensures forall i :: 0 <= i < |files| ==> |files[i]| > 0 && |files[i]| % BLOCK_SIZE == 0
  {
    if bs == [] then [] else Step(Recovered(bs[..|bs| - 1]), bs[|bs| - 1])
  }

  /** The number of signature blocks. */
  function SignatureCount(bs: seq<seq<byte>>): nat
    requires Whole(bs)
  {
    if bs == [] then 0
    else SignatureCount(bs[..|bs| - 1]) + (if IsSignature(bs[|bs| - 1]) then 1 else 0)
  }

  /** The index of the first signature block, or `|bs|` when there is none. */
  function FirstSignature(bs: seq<seq<byte>>): (k: nat)
    requires Whole(bs)
    ensures k <= |bs| && (k < |bs| ==> IsSignature(bs[k]))
    ensures forall i :: 0 <= i < k ==> !IsSignature(bs[i])
  {
    if bs == [] then 0
    else
      var k := FirstSignature(bs[..|bs| - 1]);
      if k < |bs| - 1 then k
      else if IsSignature(bs[|bs| - 1]) then |bs| - 1
      else |bs|
  }

  /** One file per signature block. */
  lemma {:induction false} RecoveredCount(bs: seq<seq<byte>>)
    requires Whole(bs)
    ensures |Recovered(bs)| == SignatureCount(bs)
  {
    if bs != [] {
      RecoveredCount(bs[..|bs| - 1]);
    }
  }

  /** No file is opened, and nothing written, until a signature block has been read. */
  lemma {:induction false} NothingBeforeSignature(bs: seq<seq<byte>>)
    requires Whole(bs)
    ensures Recovered(bs) == [] <==> FirstSignature(bs) == |bs|
  {
    if bs != [] {
      NothingBeforeSignature(bs[..|bs| - 1]);
    }
  }

  lemma LastSplit<T>(s: seq<T>)
    requires s != []
    ensures s == s[..|s| - 1] + [s[|s| - 1]]
  {
  }

  lemma SuffixSnoc<T>(s: seq<T>, k: nat)
    requires k < |s|
    ensures s[k..] == s[..|s| - 1][k..] + [s[|s| - 1]]
  {
  }

  /** Appending to the last file appends to the concatenation of all of them. */
  lemma AppendToLast(files: seq<seq<byte>>, b: seq<byte>)
    requires files != []
    ensures Flatten(files[..|files| - 1] + [files[|files| - 1] + b]) == Flatten(files) + b
  {
    var init, last := files[..|files| - 1], files[|files| - 1];
    FlattenSnoc(init, last + b);
    LastSplit(files);
    FlattenSnoc(init, last);
  }

  /**
   * Every block from the first signature on is written, in order, and
   * nothing else: the files put together are that suffix of the card.
   */
  lemma {:induction false} RecoveredSuffix(bs: seq<seq<byte>>)
    requires Whole(bs)
    ensures Flatten(Recovered(bs)) == Flatten(bs[FirstSignature(bs)..])
  {
    if bs != [] {
      var p := bs[..|bs| - 1];
      RecoveredSuffix(p);
      NothingBeforeSignature(p);
      SuffixStep(p, bs[|bs| - 1], bs);
    }
  }

  /** One more block keeps the files' concatenation equal to the suffix from the first signature. */
  lemma SuffixStep(p: seq<seq<byte>>, b: seq<byte>, bs: seq<seq<byte>>)
    requires Whole(p) && |b| == BLOCK_SIZE && bs != [] && Whole(bs) && p == bs[..|bs| - 1] && b == bs[|bs| - 1]
    requires Flatten(Recovered(p)) == Flatten(p[FirstSignature(p)..])
    requires Recovered(p) == [] <==> FirstSignature(p) == |p|
    ensures Flatten(Recovered(bs)) == Flatten(bs[FirstSignature(bs)..])
  {
    var k := FirstSignature(p);
    var files := Recovered(p);
    assert Recovered(bs) == Step(files, b);
    if k < |p| {
      assert FirstSignature(bs) == k;
      SuffixSnoc(bs, k);
      FlattenSnoc(p[k..], b);
      if IsSignature(b) {
        FlattenSnoc(files, b);
      } else {
        AppendToLast(files, b);
      }
    } else if IsSignature(b) {
      SuffixSnoc(bs, |p|);
      assert p[|p|..] == [];
      FlattenSnoc([], b);
    } else {
      assert bs[|bs|..] == [];
    }
  }

  /**
   * A recovered JPEG: whole blocks, the first a signature block and no
   * other block a signature block.
   */
  predicate IsJpeg(f: seq<byte>)
  {
    |f| >= BLOCK_SIZE && |f| % BLOCK_SIZE == 0 && IsSignature(f) &&
    forall k :: BLOCK_SIZE <= k <= |f| - BLOCK_SIZE && k % BLOCK_SIZE == 0 ==> !IsSignature(f[k..])
  }

  lemma JpegAppend(f: seq<byte>, b: seq<byte>)
    requires IsJpeg(f) && |b| == BLOCK_SIZE && !IsSignature(b)
    ensures IsJpeg(f + b)
  {
    var g := f + b;
    assert IsSignature(g) by {
      assert g[..4] == f[..4];
    }
    forall k | BLOCK_SIZE <= k <= |g| - BLOCK_SIZE && k % BLOCK_SIZE == 0
      ensures !IsSignature(g[k..])
    {
      if k < |f| {
        assert g[k..][..4] == f[k..][..4];
      } else {
        assert g[k..] == b;
      }
    }
  }

  /** Each file is one signature block followed by the non-signature blocks up to the next signature. */
  lemma {:induction false} RecoveredAreJpegs(bs: seq<seq<byte>>)
    requires Whole(bs)
    ensures forall i :: 0 <= i < |Recovered(bs)| ==> IsJpeg(Recovered(bs)[i])
  {
    if bs != [] {
      var p := bs[..|bs| - 1];
      var b := bs[|bs| - 1];
      var files := Recovered(p);
      RecoveredAreJpegs(p);
      if IsSignature(b) {
        assert IsJpeg(b);
      } else if files != [] {
        JpegAppend(files[|files| - 1], b);
      }
    }
  }

  /** The digit character for `d`. */
  function Digit(d: nat): char
    requires d < 10
  {
    ('0' as int + d) as char
  }

  predicate AllDigits(s: string)
  {
    forall i :: 0 <= i < |s| ==> '0' <= s[i] <= '9'
  }

  /** `%i` of a non-negative `int`: its decimal digits, most significant first. */
  function Digits(k: nat): (s: string)
    ensures |s| >= 1 && AllDigits(s)
  {
    if k < 10 then [Digit(k)] else Digits(k / 10) + [Digit(k % 10)]
  }

  /** `%03i`: zeros on the left up to three characters. */
  function Pad3(s: string): (r: string)
    ensures AllDigits(s) ==> AllDigits(r)
    decreases 3 - |s|
  {
    if |s| >= 3 then s else Pad3(['0'] + s)
  }

  /** The name `sprintf(filename, "%03i.jpg", k)` writes. */
  function FileName(k: nat): string
  {
    Pad3(Digits(k)) + ".jpg"
  }

  /** The names of the first `count` files, in order. */
  function Names(count: nat): (names: seq<string>)
    ensures |names| == count
  {
    if count == 0 then [] else Names(count - 1) + [FileName(count - 1)]
  }

  /** The number a digit string denotes. */
  function Value(s: string): nat
    requires AllDigits(s)
  {
    if s == [] then 0 else 10 * Value(s[..|s| - 1]) + (s[|s| - 1] as int - '0' as int)
  }

  /** The digits read back give the number printed. */
  lemma {:induction false} DigitsValue(k: nat)
    ensures Value(Digits(k)) == k
  {
    if k >= 10 {
      DigitsValue(k / 10);
      var s := Digits(k);
      assert s[..|s| - 1] == Digits(k / 10);
    }
  }

  /** A leading zero does not change the number. */
  lemma {:induction false} LeadingZero(s: string)
    requires AllDigits(s)
    ensures Value(['0'] + s) == Value(s)
    decreases |s|
  {
    if s != [] {
      var t := ['0'] + s;
      assert t[..|t| - 1] == ['0'] + s[..|s| - 1];
      LeadingZero(s[..|s| - 1]);
    } else {
      assert Value(['0']) == 10 * Value([]) + 0;
    }
  }

  lemma {:induction false} PadValue(s: string)
    requires AllDigits(s)
    ensures Value(Pad3(s)) == Value(s) && |Pad3(s)| == if |s| >= 3 then |s| else 3
    decreases 3 - |s|
  {
    if |s| < 3 {
      LeadingZero(s);
      PadValue(['0'] + s);
    }
  }

  /** Distinct counts give distinct names, so no file overwrites an earlier one. */
  lemma FileNamesDistinct(i: nat, j: nat)
    ensures FileName(i) == FileName(j) <==> i == j
  {
    if FileName(i) == FileName(j) {
      var a, b := Pad3(Digits(i)), Pad3(Digits(j));
      assert a == FileName(i)[..|FileName(i)| - 4];
      assert b == FileName(j)[..|FileName(j)| - 4];
      PadValue(Digits(i));
      PadValue(Digits(j));
      DigitsValue(i);
      DigitsValue(j);
    }
  }

  /** `k` prints in at most `d` digits exactly when it is below 10 to the `d`. */
  lemma {:induction false} DigitsLength(k: nat, d: nat)
    requires d >= 1
    ensures |Digits(k)| <= d <==> k < Pow10(d)
  {
    if k >= 10 {
      if d == 1 {
        assert |Digits(k)| >= 2;
      } else {
        DigitsLength(k / 10, d - 1);
      }
    }
  }

  /** The name and its NUL fit the 8-byte buffer exactly while fewer than 1000 files have been opened. */
  lemma NameFits(k: nat)
    ensures |FileName(k)| + 1 <= FILENAME_SIZE <==> k < 1000
  {
    PadValue(Digits(k));
    DigitsLength(k, 3);
    assert Pow10(3) == 1000;
  }

  lemma NextBlockAligned(pos: nat)
    requires pos % BLOCK_SIZE == 0
    ensures (pos + BLOCK_SIZE) % BLOCK_SIZE == 0
  {
  }

  /** The blocks read so far, one block later. */
  lemma BlocksStep(data: seq<byte>, pos: nat)
    requires pos % BLOCK_SIZE == 0 && pos + BLOCK_SIZE <= |data|
    ensures Blocks(data[..pos + BLOCK_SIZE]) == Blocks(data[..pos]) + [data[pos..pos + BLOCK_SIZE]]
  {
    var b := data[pos..pos + BLOCK_SIZE];
    assert data[..pos + BLOCK_SIZE] == data[..pos] + b;
    BlocksAppend(data[..pos], b);
    assert b[BLOCK_SIZE..] == [];
    assert b[..BLOCK_SIZE] == b;
  }

  /** The blocks of a prefix of whole blocks come first among the blocks of the whole card. */
  lemma BlocksPrefix(data: seq<byte>, pos: nat)
    requires pos % BLOCK_SIZE == 0 && pos <= |data|
    ensures Blocks(data) == Blocks(data[..pos]) + Blocks(data[pos..])
  {
    assert data == data[..pos] + data[pos..];
    BlocksAppend(data[..pos], data[pos..]);
  }

  lemma {:induction false} CountAppend(a: seq<seq<byte>>, b: seq<seq<byte>>)
    requires Whole(a) && Whole(b)
    ensures SignatureCount(a + b) == SignatureCount(a) + SignatureCount(b)
    decreases |b|
  {
    if b == [] {
      assert a + b == a;
    } else {
      assert (a + b)[..|a + b| - 1] == a + b[..|b| - 1];
      CountAppend(a, b[..|b| - 1]);
    }
  }

  /** A signature block read at `pos` is one the card holds: the card has at least as many as were read. */
  lemma CountAtLeast(data: seq<byte>, pos: nat)
    requires pos % BLOCK_SIZE == 0 && pos <= |data|
    ensures SignatureCount(Blocks(data)) >= SignatureCount(Blocks(data[..pos]))
  {
    BlocksPrefix(data, pos);
    CountAppend(Blocks(data[..pos]), Blocks(data[pos..]));
  }

  /** A signature block at `pos` is one more than the blocks before it hold. */
  lemma SignatureAhead(data: seq<byte>, pos: nat)
    requires pos % BLOCK_SIZE == 0 && pos + BLOCK_SIZE <= |data| && IsSignature(data[pos..pos + BLOCK_SIZE])
    ensures SignatureCount(Blocks(data)) > SignatureCount(Blocks(data[..pos]))
  {
    var b := data[pos..pos + BLOCK_SIZE];
    BlocksStep(data, pos);
    NextBlockAligned(pos);
    CountAtLeast(data, pos + BLOCK_SIZE);
    CountAppend(Blocks(data[..pos]), [b]);
    var one: seq<seq<byte>> := [b];
    assert one[..0] == [];
  }

  /** The block loop's state after one more block, as `Step` describes it. */
  lemma WriteStep(files: seq<seq<byte>>, created: seq<seq<byte>>, written: seq<seq<byte>>, b: seq<byte>)
    requires |b| == BLOCK_SIZE
    requires created == if IsSignature(b) then files + [[]] else files
    requires written == if created == [] then created else created[..|created| - 1] + [created[|created| - 1] + b]
    ensures written == Step(files, b)
  {
    if IsSignature(b) {
      assert created[..|created| - 1] == files;
      assert created[|created| - 1] + b == b;
    }
  }

  /**
   * The block loop of `main`. `files` holds what was written to each
   * output file and `names` their names. `ok` is false when `sprintf` is
   * about to write a name that does not fit the buffer (at the 1001st
   * signature block), after which the program's behaviour is undefined.
   */
  method RecoverImages(data: seq<byte>) returns (names: seq<string>, files: seq<seq<byte>>, ok: bool)
    ensures ok <==> SignatureCount(Blocks(data)) <= 1000
    ensures ok ==> files == Recovered(Blocks(data)) && names == Names(|files|)
  {
    names, files := [], [];
    var fileCount := 0;
    var open := false;
    var pos := 0;
    while pos + BLOCK_SIZE <= |data|
      invariant 0 <= pos <= |data| && pos % BLOCK_SIZE == 0
      invariant files == Recovered(Blocks(data[..pos]))
      invariant fileCount == |files| == SignatureCount(Blocks(data[..pos])) && names == Names(fileCount)
      invariant open <==> fileCount > 0
      invariant fileCount <= 1000
      decreases |data| - pos
    {
      var buffer := data[pos..pos + BLOCK_SIZE];
      ghost var before := files;
      BlocksStep(data, pos);
      NextBlockAligned(pos);
      RecoveredCount(Blocks(data[..pos + BLOCK_SIZE]));
      if IsSignature(buffer) {
        var name := FileName(fileCount);
        NameFits(fileCount);
        if |name| + 1 > FILENAME_SIZE {
          SignatureAhead(data, pos);
          return names, files, false;
        }
        names := names + [name];
        files := files + [[]];
        fileCount := fileCount + 1;
        open := true;
      }
      ghost var created := files;
      if open {
        files := files[..|files| - 1] + [files[|files| - 1] + buffer];
      }
      WriteStep(before, created, files, buffer);
      pos := pos + BLOCK_SIZE;
    }
    BlocksPrefix(data, pos);
    assert Blocks(data[pos..]) == [];
    assert Blocks(data) == Blocks(data[..pos]);
    ok := true;
  }

  /** The outcome of one run: an exit code, undefined behaviour, or the files written. */
  datatype Run = Failed(code: int) | Undefined | Done(names: seq<string>, files: seq<seq<byte>>)

  /**
   * `main`: the argument count checked, then the card image `data` carved
   * into files named in order.
   */
  method Program(argc: int, data: seq<byte>) returns (run: Run)
    ensures argc != 2 ==> run == Failed(1)
    ensures argc == 2 && SignatureCount(Blocks(data)) > 1000 ==> run == Undefined
    ensures argc == 2 && SignatureCount(Blocks(data)) <= 1000 ==>
      run == Done(Names(SignatureCount(Blocks(data))), Recovered(Blocks(data)))
  {
    if argc != 2 {
      return Failed(1);
    }
    var names, files, ok := RecoverImages(data);
    if !ok {
      return Undefined;
    }
    RecoveredCount(Blocks(data));
    return Done(names, files);
  }
}
