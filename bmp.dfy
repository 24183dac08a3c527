/**
 * The 24-bit uncompressed Windows BMP format as week3/Whodunit/whodunit.c
 * and week3/resize/resize.c read it: a BITMAPFILEHEADER, a
 * BITMAPINFOHEADER, then scanlines of RGBTRIPLEs (blue, green, red), each
 * padded with zero bytes to a multiple of 4.
 */
module Bmp {
  import opened Basics

  /** BITMAPFILEHEADER, 14 bytes on disk. */
  datatype FileHeader = FileHeader(bfType: int, bfSize: int, bfReserved1: int, bfReserved2: int, bfOffBits: int)

  /** BITMAPINFOHEADER, 40 bytes on disk. */
  datatype InfoHeader = InfoHeader(
    biSize: int, biWidth: int, biHeight: int, biPlanes: int, biBitCount: int,
    biCompression: int, biSizeImage: int, biXPelsPerMeter: int, biYPelsPerMeter: int,
    biClrUsed: int, biClrImportant: int)

  /** RGBTRIPLE, in the order of its bytes on disk; `sizeof(RGBTRIPLE)` is 3. */
  datatype Rgb = Rgb(blue: byte, green: byte, red: byte)

  const FILE_HEADER_SIZE: nat := 14
  const INFO_HEADER_SIZE: nat := 40

  /** How a run of either program ends: an exit status, undefined behaviour, or the file it wrote. */
  datatype Run = Failed(code: int) | Undefined | Done(bf: FileHeader, bi: InfoHeader, pixels: seq<byte>)

  /** The format check both programs make: "BM", a 54-byte offset, a 40-byte info header, 24 bits, no compression. */
  predicate Supported(bf: FileHeader, bi: InfoHeader)
    ensures Supported(bf, bi) ==> bf.bfType % 256 == 'B' as int && bf.bfType / 256 == 'M' as int
    ensures Supported(bf, bi) ==> bf.bfOffBits == FILE_HEADER_SIZE + INFO_HEADER_SIZE && bi.biSize == INFO_HEADER_SIZE
  {
    bf.bfType == 0x4d42 && bf.bfOffBits == 54 && bi.biSize == 40 && bi.biBitCount == 24 && bi.biCompression == 0
  }

  /** `abs`. */
  function Abs(x: int): nat
  {
    if x < 0 then -x else x
  }

  /**
   * `(4 - (biWidth * sizeof(RGBTRIPLE)) % 4) % 4`. The product is taken in
   * the unsigned `size_t`, whose modulus 2^64 is a multiple of 4, so the
   * result is Dafny's Euclidean `%` for every width, negative ones too:
   * the fewest bytes that round a scanline up to a multiple of 4.
   */
  function Padding(width: int): (p: int)
    ensures 0 <= p <= 3
  {
    (4 - (3 * width) % 4) % 4
  }

  /**
   * The padding rounds a scanline up to a multiple of 4; being at most 3,
   * it is the only padding that does.
   */
  lemma PaddingAligns(width: int)
    ensures (3 * width + Padding(width)) % 4 == 0
  {
  }

  /** How many times `for (col = 0; col < biWidth; col++)` runs. */
  function Columns(width: int): nat
  {
    if width < 0 then 0 else width
  }

  /** `n` zero bytes, as the padding loops write them with `fputc(0x00)`. */
  function Zeros(n: int): (z: seq<byte>)
    ensures |z| == (if n < 0 then 0 else n) && forall i :: 0 <= i < |z| ==> z[i] == 0
  {
    if n <= 0 then [] else Zeros(n - 1) + [0]
  }

  /** The bytes of a triple as `fwrite` puts them on disk. */
  function TripleBytes(t: Rgb): seq<byte>
  {
    [t.blue, t.green, t.red]
  }

  /** Pixels written one after the other. */
  function Encode(ps: seq<Rgb>): (bs: seq<byte>)
    ensures |bs| == 3 * |ps|
  {
    if ps == [] then [] else Encode(ps[..|ps| - 1]) + TripleBytes(ps[|ps| - 1])
  }

  /** The triple `fread` fills from the three bytes at `pos`. */
  function TripleAt(data: seq<byte>, pos: int): Rgb
    requires 0 <= pos && pos + 3 <= |data|
  {
    Rgb(data[pos], data[pos + 1], data[pos + 2])
  }

  /** The `count` triples read one after the other from `pos`. */
  function RowPixels(data: seq<byte>, pos: int, count: nat): (ps: seq<Rgb>)
    requires 0 <= pos && (count == 0 || pos + 3 * count <= |data|)
    ensures |ps| == count
  {
    if count == 0 then [] else RowPixels(data, pos, count - 1) + [TripleAt(data, pos + 3 * (count - 1))]
  }

  /** Reading the triples back from their bytes gives the bytes they were read from. */
  lemma {:induction false} EncodeRowPixels(data: seq<byte>, pos: int, count: nat)
    requires 0 <= pos && pos + 3 * count <= |data|
    ensures Encode(RowPixels(data, pos, count)) == data[pos..pos + 3 * count]
  {
    if count > 0 {
      EncodeRowPixels(data, pos, count - 1);
      EncodeRowStep(data, pos, count, pos + 3 * (count - 1));
    }
  }

  /** One more triple read from `q` appends the three bytes at `q`. */
  lemma EncodeRowStep(data: seq<byte>, pos: int, count: nat, q: int)
    requires 0 <= pos && count > 0 && q == pos + 3 * (count - 1) && q + 3 <= |data|
    requires Encode(RowPixels(data, pos, count - 1)) == data[pos..q]
    ensures Encode(RowPixels(data, pos, count)) == data[pos..q + 3]
  {
    RowPixelsSnoc(data, pos, count, q);
    EncodeSnoc(RowPixels(data, pos, count - 1), TripleAt(data, q));
    TripleBytesAt(data, q);
    SliceSplit(data, pos, q, q + 3);
  }

  /** The first `count` triples are the first `count - 1` and the one at `q`. */
  lemma RowPixelsSnoc(data: seq<byte>, pos: int, count: nat, q: int)
    requires 0 <= pos && count > 0 && q == pos + 3 * (count - 1) && q + 3 <= |data|
    ensures RowPixels(data, pos, count) == RowPixels(data, pos, count - 1) + [TripleAt(data, q)]
  {
  }

  /** The bytes of the triple read at `q` are the three bytes at `q`. */
  lemma TripleBytesAt(data: seq<byte>, q: int)
    requires 0 <= q && q + 3 <= |data|
    ensures TripleBytes(TripleAt(data, q)) == data[q..q + 3]
  {
  }

  /** A slice is its two halves. */
  lemma SliceSplit(data: seq<byte>, i: int, j: int, k: int)
    requires 0 <= i <= j <= k <= |data|
    ensures data[i..k] == data[i..j] + data[j..k]
  {
  }

  /** Appending a pixel appends its three bytes. */
  lemma EncodeSnoc(ps: seq<Rgb>, t: Rgb)
    ensures Encode(ps + [t]) == Encode(ps) + TripleBytes(t)
  {
    assert (ps + [t])[..|ps|] == ps;
  }

  /** `pre` written before what `o` writes; nothing when `o` fails. */
  function Prepend(pre: seq<byte>, o: Option<seq<byte>>): Option<seq<byte>>
  {
    if o.None? then None else Some(pre + o.value)
  }

  /** Writing `a` and then `b` before `o` is writing `a + b` before it. */
  lemma PrependAssoc(a: seq<byte>, b: seq<byte>, o: Option<seq<byte>>)
    ensures Prepend(a, Prepend(b, o)) == Prepend(a + b, o)
  {
    if o.Some? {
      assert a + (b + o.value) == (a + b) + o.value;
    }
  }

  /** The loop `for (k = 0; k < padding; k++) fputc(0x00, outptr)` after `line`. */
  method WritePadding(line: seq<byte>, padding: int) returns (out: seq<byte>)
    ensures out == line + Zeros(padding)
  {
    out := line;
    for k := 0 to if padding < 0 then 0 else padding
      invariant out == line + Zeros(k)
    {
      out := out + [0x00];
    }
  }

  /** Pixels written in two runs are the bytes of both runs. */
  lemma {:induction false} EncodeAppend(a: seq<Rgb>, b: seq<Rgb>)
    ensures Encode(a + b) == Encode(a) + Encode(b)
    decreases |b|
  {
    if b == [] {
      assert a + b == a;
    } else {
      var c := b[..|b| - 1];
      EncodeAppend(a, c);
      assert a + b == (a + c) + [b[|b| - 1]];
      EncodeSnoc(a + c, b[|b| - 1]);
      EncodeSnoc(c, b[|b| - 1]);
    }
  }
}
