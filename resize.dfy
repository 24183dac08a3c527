/**
 * week3/resize/resize.c: a 24-bit BMP enlarged by a factor `n` from 1 to
 * 100. Every pixel is written `n` times across, every scanline `n` times
 * down (the input is re-read after seeking back over the scanline), each
 * output scanline padded for the new width, and the headers updated to
 * the new dimensions and sizes.
 */
module Resize {
  import opened Basics
  import opened Bmp

  const MAX_FACTOR: int := 100

  /** 2^32: a `DWORD` header field keeps what is stored in it modulo this. */
  const DWORD_MODULUS: int := 0x1_0000_0000

  /** The factor check: `n <= 0 || n > 100` is refused. */
  predicate ValidFactor(n: int)
  {
    !(n <= 0 || n > MAX_FACTOR)
  }

  /** A `size_t` value stored into a `DWORD`. */
  function Dword(x: int): (d: int)
    ensures 0 <= d < DWORD_MODULUS
    ensures 0 <= x < DWORD_MODULUS ==> d == x
  {
    x % DWORD_MODULUS
  }

  /**
   * `new_bi`: the width and height multiplied by `n`, and `biSizeImage`
   * the bytes of the new scanlines, padding included, stored in a `DWORD`.
   */
  function NewInfoHeader(bi: InfoHeader, n: int): (r: InfoHeader)
    ensures r.(biWidth := bi.biWidth, biHeight := bi.biHeight, biSizeImage := bi.biSizeImage) == bi
    ensures 0 <= r.biSizeImage < DWORD_MODULUS
  {
    var w := bi.biWidth * n;
    var h := bi.biHeight * n;
    bi.(biWidth := w, biHeight := h, biSizeImage := Dword((3 * w + Padding(w)) * Abs(h)))
  }

  /** `new_bf`: `bfSize` is the new image size plus both headers, stored in a `DWORD`. */
  function NewFileHeader(bf: FileHeader, newBi: InfoHeader): (r: FileHeader)
    ensures r.(bfSize := bf.bfSize) == bf
    ensures 0 <= newBi.biSizeImage && newBi.biSizeImage + FILE_HEADER_SIZE + INFO_HEADER_SIZE < DWORD_MODULUS ==>
      r.bfSize == newBi.biSizeImage + FILE_HEADER_SIZE + INFO_HEADER_SIZE
  {
    bf.(bfSize := Dword(newBi.biSizeImage + FILE_HEADER_SIZE + INFO_HEADER_SIZE))
  }

  /** A scanline's pixels, each written `n` times in a row. */
  function ScaleRow(ps: seq<Rgb>, n: nat): seq<Rgb>
  {
    if ps == [] then [] else ScaleRow(ps[..|ps| - 1], n) + Repeat([ps[|ps| - 1]], n)
  }

  /** Scaling across makes a scanline `n` times as wide. */
  lemma {:induction false} ScaleRowLength(ps: seq<Rgb>, n: nat)
    ensures |ScaleRow(ps, n)| == n * |ps|
    decreases |ps|
  {
    if ps != [] {
      ScaleRowLength(ps[..|ps| - 1], n);
      RepeatLength([ps[|ps| - 1]], n);
      assert n * |ps| == n * (|ps| - 1) + n;
    }
  }

  /**
   * One output scanline: the input scanline at `pos` scaled across, then
   * the new padding, `3 * (n * cols)` pixel bytes followed by zeros.
   */
  function Scanline(data: seq<byte>, pos: int, cols: nat, n: nat, newPad: int): (r: seq<byte>)
    requires 0 <= pos && (cols == 0 || pos + 3 * cols <= |data|)
    ensures forall k :: 3 * (n * cols) <= k < |r| ==> r[k] == 0
  {
    ScaleRowLength(RowPixels(data, pos, cols), n);
    Encode(ScaleRow(RowPixels(data, pos, cols), n)) + Zeros(newPad)
  }

  /**
   * The pixel data resize writes for `rows` input scanlines from `pos`,
   * each written `n` times; `None` when a pixel read runs out of data.
   */
  function Resized(data: seq<byte>, pos: int, rows: nat, cols: nat, pad: nat, n: nat, newPad: nat): Option<seq<byte>>
    requires pos >= 0
    decreases rows
  {
    if rows == 0 then Some([])
    else if cols > 0 && pos + 3 * cols > |data| then None
    else Prepend(Repeat(Scanline(data, pos, cols, n, newPad), n), Resized(data, pos + 3 * cols + pad, rows - 1, cols, pad, n, newPad))
  }

  /** The one copy of `s` repeated once. */
  lemma RepeatOnce<T>(s: seq<T>)
    ensures Repeat(s, 1) == s
  {
    assert Repeat(s, 1) == [] + s;
  }

  /** Every copy of a single element is that element. */
  lemma {:induction false} RepeatSingle<T>(x: T, n: nat, j: int)
    requires 0 <= j < n
    ensures |Repeat([x], n)| == n && Repeat([x], n)[j] == x
    decreases n
  {
    RepeatLength([x], n);
    if j < n - 1 {
      RepeatSingle(x, n - 1, j);
    }
  }

  /**
   * Scaling across puts pixel `k` of the input at the `n` places
   * `k * n` to `k * n + n - 1` of the output.
   */
  lemma {:induction false} ScaleRowIndex(ps: seq<Rgb>, n: nat, k: int, j: int)
    requires 0 <= k < |ps| && 0 <= j < n
    ensures |ScaleRow(ps, n)| == n * |ps| && k * n + j < n * |ps| && ScaleRow(ps, n)[k * n + j] == ps[k]
    decreases |ps|
  {
    var m := |ps| - 1;
    var pre := ps[..m];
    ScaleRowLength(ps, n);
    ScaleRowLength(pre, n);
    assert ScaleRow(ps, n) == ScaleRow(pre, n) + Repeat([ps[m]], n);
    if k < m {
      ScaleRowIndex(pre, n, k, j);
      assert n * |pre| <= n * |ps| by {
        MulMono(n, |pre|, |ps|);
      }
    } else {
      assert k * n == n * |pre|;
      RepeatSingle(ps[m], n, j);
    }
  }

  /** With a factor of 1 a scanline is copied as it is. */
  lemma {:induction false} ScaleRowOne(ps: seq<Rgb>)
    ensures ScaleRow(ps, 1) == ps
    decreases |ps|
  {
    if ps != [] {
      ScaleRowOne(ps[..|ps| - 1]);
      RepeatOnce([ps[|ps| - 1]]);
    }
  }

  /** One pixel more scales to its `n` copies more. */
  lemma ScaleRowSnoc(ps: seq<Rgb>, t: Rgb, n: nat)
    ensures Encode(ScaleRow(ps + [t], n)) == Encode(ScaleRow(ps, n)) + Encode(Repeat([t], n))
  {
    assert (ps + [t])[..|ps|] == ps;
    EncodeAppend(ScaleRow(ps, n), Repeat([t], n));
  }

  /**
   * When the pixel data suffices, there are `rows * n` output scanlines of
   * `3 * (n * cols) + newPad` bytes each.
   */
  lemma {:induction false} ResizedLength(data: seq<byte>, pos: int, rows: nat, cols: nat, pad: nat, n: nat, newPad: nat, size: int)
    requires pos >= 0 && Resized(data, pos, rows, cols, pad, n, newPad).Some?
    requires size == n * (3 * (n * cols) + newPad)
    ensures |Resized(data, pos, rows, cols, pad, n, newPad).value| == rows * size
    decreases rows
  {
    if rows > 0 {
      var next := pos + 3 * cols + pad;
      var rest := Resized(data, next, rows - 1, cols, pad, n, newPad);
      var copies := Repeat(Scanline(data, pos, cols, n, newPad), n);
      assert Resized(data, pos, rows, cols, pad, n, newPad).value == copies + rest.value;
      ResizedLength(data, next, rows - 1, cols, pad, n, newPad, size);
      CopiesLength(data, pos, cols, n, newPad);
      Distribute(rows, size);
    } else {
      assert rows * size == 0;
    }
  }

  /** The `n` copies of an output scanline. */
  lemma CopiesLength(data: seq<byte>, pos: int, cols: nat, n: nat, newPad: nat)
    requires 0 <= pos && (cols == 0 || pos + 3 * cols <= |data|)
    ensures |Repeat(Scanline(data, pos, cols, n, newPad), n)| == n * (3 * (n * cols) + newPad)
  {
    ScaleRowLength(RowPixels(data, pos, cols), n);
    RepeatLength(Scanline(data, pos, cols, n, newPad), n);
  }

  /**
   * The output exists exactly when the pixels of the last input scanline
   * end inside the data: repeating a scanline reads nothing new.
   */
  lemma {:induction false} ResizedDefined(data: seq<byte>, pos: int, rows: nat, cols: nat, pad: nat, n: nat, newPad: nat)
    requires pos >= 0
    ensures Resized(data, pos, rows, cols, pad, n, newPad).Some? <==>
      (rows == 0 || cols == 0 || pos + (rows - 1) * (3 * cols + pad) + 3 * cols <= |data|)
    decreases rows
  {
    if rows > 1 {
      ResizedSomeStep(data, pos, rows, cols, pad, n, newPad);
      ResizedDefined(data, pos + 3 * cols + pad, rows - 1, cols, pad, n, newPad);
      LastScanline(pos, rows, cols, pad);
    } else if rows == 1 {
      ResizedSomeStep(data, pos, rows, cols, pad, n, newPad);
    }
  }

  /** Where the last scanline ends, counted from the first or from the second scanline. */
  lemma LastScanline(pos: int, rows: nat, cols: nat, pad: nat)
    requires rows > 1
    ensures pos + (rows - 1) * (3 * cols + pad) + 3 * cols == pos + 3 * cols + pad + (rows - 1 - 1) * (3 * cols + pad) + 3 * cols
    ensures pos + 3 * cols <= pos + (rows - 1) * (3 * cols + pad) + 3 * cols
  {
    Distribute(rows - 1, 3 * cols + pad);
  }

  /** One scanline of `Resized`: the output exists iff this scanline's pixels are there and the rest exists. */
  lemma ResizedSomeStep(data: seq<byte>, pos: int, rows: nat, cols: nat, pad: nat, n: nat, newPad: nat)
    requires pos >= 0 && rows > 0
    ensures Resized(data, pos, rows, cols, pad, n, newPad).Some? <==>
      (cols == 0 || pos + 3 * cols <= |data|) && Resized(data, pos + 3 * cols + pad, rows - 1, cols, pad, n, newPad).Some?
  {
  }

  /** Input scanlines whose padding bytes are zero, as a well-formed BMP has them. */
  predicate ZeroPadded(data: seq<byte>, pos: int, rows: nat, cols: nat, pad: nat)
    requires 0 <= pos
    decreases rows
  {
    rows == 0 ||
    (pos + 3 * cols + pad <= |data| && data[pos + 3 * cols..pos + 3 * cols + pad] == Zeros(pad) &&
     ZeroPadded(data, pos + 3 * cols + pad, rows - 1, cols, pad))
  }

  /**
   * A factor of 1 copies the pixel data: when every scanline and its zero
   * padding are there, the output is the input's `rows` scanlines byte for byte.
   */
  lemma {:induction false} FactorOneCopies(data: seq<byte>, pos: int, rows: nat, cols: nat, pad: nat, end: int)
    requires 0 <= pos && end == pos + rows * (3 * cols + pad) && end <= |data|
    requires ZeroPadded(data, pos, rows, cols, pad)
    ensures pos <= end && Resized(data, pos, rows, cols, pad, 1, pad) == Some(data[pos..end])
    decreases rows
  {
    if rows > 0 {
      var next := pos + 3 * cols + pad;
      Distribute(rows, 3 * cols + pad);
      FactorOneCopies(data, next, rows - 1, cols, pad, end);
      CopyStep(data, pos, next, end, rows, cols, pad);
    } else {
      assert rows * (3 * cols + pad) == 0;
      assert data[pos..end] == [];
    }
  }

  /** A scanline copied whole before the copy of the scanlines after it. */
  lemma CopyStep(data: seq<byte>, pos: int, next: int, end: int, rows: nat, cols: nat, pad: nat)
    requires 0 <= pos && rows > 0 && next == pos + 3 * cols + pad && next <= end <= |data|
    requires ZeroPadded(data, pos, rows, cols, pad)
    requires Resized(data, next, rows - 1, cols, pad, 1, pad) == Some(data[next..end])
    ensures Resized(data, pos, rows, cols, pad, 1, pad) == Some(data[pos..end])
  {
    ScanlineCopied(data, pos, cols, pad);
    assert Resized(data, pos, rows, cols, pad, 1, pad) == Some(Repeat(data[pos..next], 1) + data[next..end]);
    RepeatOnce(data[pos..next]);
    SliceSplit(data, pos, next, end);
  }

  /** With a factor of 1 an output scanline is the input scanline when its padding is zero. */
  lemma ScanlineCopied(data: seq<byte>, pos: int, cols: nat, pad: nat)
    requires 0 <= pos && pos + 3 * cols + pad <= |data| && data[pos + 3 * cols..pos + 3 * cols + pad] == Zeros(pad)
    ensures Scanline(data, pos, cols, 1, pad) == data[pos..pos + 3 * cols + pad]
  {
    EncodeRowPixels(data, pos, cols);
    ScaleRowOne(RowPixels(data, pos, cols));
    SliceSplit(data, pos, pos + 3 * cols, pos + 3 * cols + pad);
  }

  /**
   * The new headers describe the enlarged image: still a supported format,
   * both dimensions `n` times the old ones, and `bfSize` the image size
   * plus both headers whenever that sum fits a `DWORD`.
   */
  lemma NewHeadersScale(bf: FileHeader, bi: InfoHeader, n: int)
    requires ValidFactor(n) && Supported(bf, bi)
    ensures var newBi := NewInfoHeader(bi, n);
      var newBf := NewFileHeader(bf, newBi);
      Supported(newBf, newBi) && newBi.biWidth == n * bi.biWidth && newBi.biHeight == n * bi.biHeight &&
      (newBi.biSizeImage + 54 < DWORD_MODULUS ==> newBf.bfSize == newBi.biSizeImage + 54)
  {
    assert bi.biWidth * n == n * bi.biWidth && bi.biHeight * n == n * bi.biHeight;
  }

  /**
   * `biSizeImage` counts the pixel bytes written, for an input of
   * non-negative width whose enlarged image size fits a `DWORD`.
   */
  lemma SizeImageMatches(bi: InfoHeader, n: int, data: seq<byte>, pixels: seq<byte>)
    requires ValidFactor(n) && bi.biWidth >= 0
    requires Resized(data, 0, Abs(bi.biHeight), Columns(bi.biWidth), Padding(bi.biWidth), n, Padding(bi.biWidth * n)) == Some(pixels)
    requires (3 * (bi.biWidth * n) + Padding(bi.biWidth * n)) * Abs(bi.biHeight * n) < DWORD_MODULUS
    ensures NewInfoHeader(bi, n).biSizeImage == |pixels|
  {
    var w, h := bi.biWidth * n, bi.biHeight * n;
    assert (3 * w + Padding(w)) * Abs(h) == |pixels| by {
      PixelCount(data, bi.biWidth, bi.biHeight, n, pixels);
    }
    assert NewInfoHeader(bi, n).biSizeImage == Dword((3 * w + Padding(w)) * Abs(h));
  }

  /** The pixel bytes of the enlarged image, counted as the header counts them. */
  lemma PixelCount(data: seq<byte>, width: int, height: int, n: int, pixels: seq<byte>)
    requires n >= 1 && width >= 0
    requires Resized(data, 0, Abs(height), Columns(width), Padding(width), n, Padding(width * n)) == Some(pixels)
    ensures (3 * (width * n) + Padding(width * n)) * Abs(height * n) == |pixels|
  {
    var np, h, cols := Padding(width * n), Abs(height), Columns(width);
    var size := n * (3 * (n * cols) + np);
    assert |pixels| == h * size by {
      ResizedLength(data, 0, h, cols, Padding(width), n, np, size);
    }
    assert Abs(height * n) == h * n by {
      AbsScale(height, n);
    }
    assert (3 * (width * n) + np) * (h * n) == h * size by {
      SizeImageIsLength(cols, h, n, np, size);
    }
  }

  /** A positive factor scales an absolute value. */
  lemma AbsScale(x: int, n: int)
    requires n > 0
    ensures Abs(x * n) == Abs(x) * n
  {
    if x < 0 {
      assert x * n == -((-x) * n);
    }
  }

  /** The header's product and the pixel count agree. */
  lemma SizeImageIsLength(w: int, h: int, n: int, np: int, size: int)
    requires size == n * (3 * (n * w) + np)
    ensures (3 * (w * n) + np) * (h * n) == h * size
  {
    var a := 3 * (w * n) + np;
    assert w * n == n * w;
    assert a * (h * n) == h * (n * a);
  }

  /** The `k` loop: `triple` written `n` times after `line`. */
  method WriteTriple(line: seq<byte>, triple: Rgb, n: nat) returns (out: seq<byte>)
    ensures out == line + Encode(Repeat([triple], n))
  {
    out := line;
    for k := 0 to n
      invariant out == line + Encode(Repeat([triple], k))
    {
      EncodeSnoc(Repeat([triple], k), triple);
      out := out + TripleBytes(triple);
    }
  }

  /** One more input triple, written `n` times, extends the scaled scanline by one pixel. */
  lemma ScanlineStep(data: seq<byte>, pos: int, col: nat, n: nat, before: seq<byte>, after: seq<byte>)
    requires 0 <= pos && pos + 3 * (col + 1) <= |data|
    requires before == Encode(ScaleRow(RowPixels(data, pos, col), n))
    requires after == before + Encode(Repeat([TripleAt(data, pos + 3 * col)], n))
    ensures after == Encode(ScaleRow(RowPixels(data, pos, col + 1), n))
  {
    var triple := TripleAt(data, pos + 3 * col);
    assert RowPixels(data, pos, col + 1) == RowPixels(data, pos, col) + [triple];
    ScaleRowSnoc(RowPixels(data, pos, col), triple, n);
  }

  /** Seeking back to the start of the input scanline reads the same scanline again. */
  lemma SameScanline(data: seq<byte>, start: int, at: int, cols: nat, n: nat, newPad: nat)
    requires 0 <= start && 0 <= at
    requires cols == 0 || start + 3 * cols <= |data|
    requires cols > 0 ==> at == start
    ensures cols == 0 || at + 3 * cols <= |data|
    ensures Encode(ScaleRow(RowPixels(data, at, cols), n)) + Zeros(newPad) == Scanline(data, start, cols, n, newPad)
  {
  }

  lemma RepeatSnoc<T>(s: seq<T>, k: nat)
    ensures Repeat(s, k + 1) == Repeat(s, k) + s
  {
  }


  /**
   * The `j` loop over `biWidth` pixels from `pos`, each read and written
   * `n` times; `ok` is false when a pixel `fread` fails.
   */
  method ScaleScanline(data: seq<byte>, pos: int, width: int, n: nat) returns (line: seq<byte>, at: int, ok: bool)
    requires pos >= 0
    ensures ok <==> Columns(width) == 0 || pos + 3 * Columns(width) <= |data|
    ensures ok ==> line == Encode(ScaleRow(RowPixels(data, pos, Columns(width)), n)) && at == pos + 3 * Columns(width)
  {
    line := [];
    at := pos;
    var col := 0;
    while col < width
      invariant 0 <= col <= Columns(width) && at == pos + 3 * col
      invariant col == 0 || pos + 3 * col <= |data|
      invariant line == Encode(ScaleRow(RowPixels(data, pos, col), n))
    {
      if at + 3 > |data| {
        return line, at, false;
      }
      var triple := TripleAt(data, at);
      ghost var before := line;
      line := WriteTriple(line, triple, n);
      ScanlineStep(data, pos, col, n, before, line);
      at := at + 3;
      col := col + 1;
    }
    assert col == Columns(width);
    ok := true;
  }

  /** A scanline that cannot be read leaves no image. */
  lemma ResizedFails(image: Option<seq<byte>>, pixels: seq<byte>, data: seq<byte>, pos: int, rows: nat, cols: nat, pad: nat, n: nat, newPad: nat)
    requires pos >= 0 && rows > 0 && !(cols == 0 || pos + 3 * cols <= |data|)
    requires image == Prepend(pixels, Resized(data, pos, rows, cols, pad, n, newPad))
    ensures image.None?
  {
  }

  /** A scanline read whole moves its `n` output scanlines from the image to the output. */
  lemma ResizedStep(image: Option<seq<byte>>, pixels: seq<byte>, copies: seq<byte>, after: seq<byte>, data: seq<byte>,
                    pos: int, next: int, rows: nat, rest: nat, cols: nat, pad: nat, n: nat, newPad: nat)
    requires pos >= 0 && rows > 0 && (cols == 0 || pos + 3 * cols <= |data|)
    requires copies == Repeat(Scanline(data, pos, cols, n, newPad), n)
    requires image == Prepend(pixels, Resized(data, pos, rows, cols, pad, n, newPad))
    requires after == pixels + copies && next == pos + 3 * cols + pad && rest == rows - 1
    ensures image == Prepend(after, Resized(data, next, rest, cols, pad, n, newPad))
  {
    var r := Resized(data, next, rest, cols, pad, n, newPad);
    assert r == Resized(data, pos + 3 * cols + pad, rows - 1, cols, pad, n, newPad);
    assert Resized(data, pos, rows, cols, pad, n, newPad) == Prepend(copies, r);
    PrependAssoc(pixels, copies, r);
  }

  /** With no scanline left the output is the whole image. */
  lemma ResizedDone(image: Option<seq<byte>>, pixels: seq<byte>, data: seq<byte>, pos: int, cols: nat, pad: nat, n: nat, newPad: nat)
    requires pos >= 0 && image == Prepend(pixels, Resized(data, pos, 0, cols, pad, n, newPad))
    ensures image == Some(pixels)
  {
    assert pixels + [] == pixels;
  }

  /**
   * The `l` loop: the scanline at `start` read again `n - 1` times after
   * seeking back over it and its padding, each copy written with the new
   * padding after the first, `line`. Only the seek is done when the
   * width is not positive, since there is then nothing to read.
   */
  method RepeatScanline(data: seq<byte>, ghost start: int, pos: int, width: int, n: nat, newPadding: nat, line: seq<byte>) returns (copies: seq<byte>, at: int)
    requires n >= 1 && start >= 0 && pos >= 0
    requires Columns(width) == 0 || start + 3 * Columns(width) <= |data|
    requires Columns(width) > 0 ==> pos == start + 3 * Columns(width) + Padding(width)
    requires line == Scanline(data, start, Columns(width), n, newPadding)
    ensures copies == Repeat(line, n) && at >= 0
    ensures Columns(width) > 0 ==> at == pos
  {
    var padding := Padding(width);
    copies := line;
    at := pos;
    RepeatOnce(line);
    for l := 1 to n
      invariant copies == Repeat(line, l) && at >= 0
      invariant Columns(width) > 0 ==> at == start + 3 * Columns(width) + padding
    {
      at := at - (3 * width + padding);
      var again, next, againOk := ScaleScanline(data, at, width, n);
      assert againOk;
      again := WritePadding(again, newPadding);
      SameScanline(data, start, at, Columns(width), n, newPadding);
      RepeatSnoc(line, l);
      at := next + padding;
      copies := copies + again;
    }
  }

  /**
   * The scanline loop of `main`: `abs(biHeight)` input scanlines, each
   * scaled across, the input padding skipped with `fseek`, the new padding
   * written, and the whole written `n` times; `ok` is false when a pixel
   * `fread` fails, after which the program writes uninitialised triples.
   */
  method ResizeImage(data: seq<byte>, width: int, height: int, n: nat, newPadding: nat) returns (pixels: seq<byte>, ok: bool)
    requires n >= 1
    ensures var image := Resized(data, 0, Abs(height), Columns(width), Padding(width), n, newPadding);
      (ok <==> image.Some?) && (ok ==> pixels == image.value)
  {
    var padding := Padding(width);
    var absHeight := Abs(height);
    ghost var cols := Columns(width);
    ghost var image := Resized(data, 0, absHeight, cols, padding, n, newPadding);
    pixels := [];
    var pos := 0;
    ghost var start := 0;
    ghost var remaining := absHeight;
    var row := 0;
    assert image == Prepend(pixels, image) by {
      assert image.Some? ==> [] + image.value == image.value;
    }
    while row < absHeight
      invariant 0 <= row <= absHeight && pos >= 0 && start >= 0
      invariant cols > 0 ==> pos == start
      invariant remaining == absHeight - row
      invariant image == Prepend(pixels, Resized(data, start, remaining, cols, padding, n, newPadding))
    {
      var line, at, rowOk := ScaleScanline(data, pos, width, n);
      if !rowOk {
        ResizedFails(image, pixels, data, start, remaining, cols, padding, n, newPadding);
        return pixels, false;
      }
      line := WritePadding(line, newPadding);
      assert line == Scanline(data, start, cols, n, newPadding);
      var copies;
      copies, pos := RepeatScanline(data, start, at + padding, width, n, newPadding, line);
      ghost var before, from, rows := pixels, start, remaining;
      pixels := pixels + copies;
      start := start + 3 * cols + padding;
      remaining := remaining - 1;
      row := row + 1;
      ResizedStep(image, before, copies, pixels, data, from, start, rows, remaining, cols, padding, n, newPadding);
    }
    ResizedDone(image, pixels, data, start, cols, padding, n, newPadding);
    ok := true;
  }

  /**
   * `main` after the files are open, with the factor `atoi(argv[1])`
   * given as `n`: headers read (`None` when `fread` fails), the format
   * check, the new headers, then the scaled pixel data; a pixel read that
   * fails leaves the output undefined.
   */
  method Program(argc: int, n: int, bf: Option<FileHeader>, bi: Option<InfoHeader>, data: seq<byte>) returns (run: Run)
    ensures argc != 4 ==> run == Failed(1)
    ensures argc == 4 && !ValidFactor(n) ==> run == Failed(1)
    ensures argc == 4 && ValidFactor(n) && bf.None? ==> run == Failed(4)
    ensures argc == 4 && ValidFactor(n) && bf.Some? && bi.None? ==> run == Failed(5)
    ensures argc == 4 && ValidFactor(n) && bf.Some? && bi.Some? && !Supported(bf.value, bi.value) ==> run == Failed(6)
    ensures argc == 4 && ValidFactor(n) && bf.Some? && bi.Some? && Supported(bf.value, bi.value) ==>
      var newBi := NewInfoHeader(bi.value, n);
      var image := Resized(data, 0, Abs(bi.value.biHeight), Columns(bi.value.biWidth), Padding(bi.value.biWidth), n, Padding(newBi.biWidth));
      (image.None? ==> run == Undefined) &&
      (image.Some? ==> run == Done(NewFileHeader(bf.value, newBi), newBi, image.value))
  {
    if argc != 4 {
      return Failed(1);
    }
    if n <= 0 || n > MAX_FACTOR {
      return Failed(1);
    }
    if bf.None? {
      return Failed(4);
    }
    if bi.None? {
      return Failed(5);
    }
    if !Supported(bf.value, bi.value) {
      return Failed(6);
    }
    var newBi := NewInfoHeader(bi.value, n);
    var newBf := NewFileHeader(bf.value, newBi);
    var newPadding := Padding(newBi.biWidth);
    var pixels, ok := ResizeImage(data, bi.value.biWidth, bi.value.biHeight, n, newPadding);
    if !ok {
      return Undefined;
    }
    return Done(newBf, newBi, pixels);
  }
}
