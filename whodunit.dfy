/**
 * week3/Whodunit/whodunit.c: copies a 24-bit BMP, turning the bright red
 * noise white and every dim channel black, so that the hidden clue shows.
 */
module Whodunit {
  import opened Basics
  import opened Bmp

  const WHITE: Rgb := Rgb(0xff, 0xff, 0xff)

  /**
   * The per-pixel rule of the column loop. Every output channel is 0, 0xff,
   * or an unchanged value of at least 0x80; a channel below 0x80 never
   * survives, and a pixel turns white exactly when it is the red noise or
   * already white.
   */
  function Filter(t: Rgb): (r: Rgb)
    ensures Kept(t.red, r.red) && Kept(t.green, r.green) && Kept(t.blue, r.blue)
    ensures r != WHITE ==> (r.red == 0 <==> t.red < 0x80) && (r.green == 0 <==> t.green < 0x80) && (r.blue == 0 <==> t.blue < 0x80)
    ensures r == WHITE <==> (t.red > 0xf0 && t.green < 0x80 && t.blue < 0x80) || t == WHITE
  {
    if t.red > 0xf0 && t.green < 0x80 && t.blue < 0x80 then WHITE
    else Rgb(if t.blue < 0x80 then 0 else t.blue,
             if t.green < 0x80 then 0 else t.green,
             if t.red < 0x80 then 0 else t.red)
  }

  /** A channel the filter leaves is black, full, or its old value when that was at least 0x80. */
  predicate Kept(old_: byte, new_: byte)
  {
    new_ == 0 || new_ == 0xff || (new_ == old_ && old_ >= 0x80)
  }

  /** Filtering an image twice changes nothing more. */
  lemma FilterIdempotent(t: Rgb)
    ensures Filter(Filter(t)) == Filter(t)
  {
  }

  /** The pixels of a scanline, each filtered. */
  function FilterAll(ps: seq<Rgb>): (qs: seq<Rgb>)
    ensures |qs| == |ps| && forall i :: 0 <= i < |ps| ==> qs[i] == Filter(ps[i])
  {
    seq(|ps|, i requires 0 <= i < |ps| => Filter(ps[i]))
  }

  /** The pixel data whodunit writes for `rows` scanlines from `pos`; `None` when a read runs out. */
  function Image(data: seq<byte>, pos: int, rows: nat, cols: nat, pad: nat): Option<seq<byte>>
    requires pos >= 0
    decreases rows
  {
    if rows == 0 then Some([])
    else if cols > 0 && pos + 3 * cols > |data| then None
    else
      var rest := Image(data, pos + 3 * cols + pad, rows - 1, cols, pad);
      if rest.None? then None
      else Some(Encode(FilterAll(RowPixels(data, pos, cols))) + Zeros(pad) + rest.value)
  }

  /**
   * When the pixel data suffices, every scanline comes out as wide as it
   * went in, padding included: `rows * (3 * cols + pad)` bytes.
   */
  lemma {:induction false} ImageLength(data: seq<byte>, pos: int, rows: nat, cols: nat, pad: nat)
    requires pos >= 0 && Image(data, pos, rows, cols, pad).Some?
    ensures |Image(data, pos, rows, cols, pad).value| == rows * (3 * cols + pad)
    decreases rows
  {
    if rows > 0 {
      ImageLength(data, pos + 3 * cols + pad, rows - 1, cols, pad);
      assert rows * (3 * cols + pad) == (3 * cols + pad) + (rows - 1) * (3 * cols + pad);
    }
  }

  /**
   * The image needs `rows` full scanlines of pixels, padding skipped: it is
   * there exactly when the pixels of the last scanline end inside the data.
   */
  lemma {:induction false} ImageDefined(data: seq<byte>, pos: int, rows: nat, cols: nat, pad: nat)
    requires pos >= 0
    ensures Image(data, pos, rows, cols, pad).Some? <==>
      (rows == 0 || cols == 0 || pos + (rows - 1) * (3 * cols + pad) + 3 * cols <= |data|)
    decreases rows
  {
    if rows > 1 {
      ImageDefined(data, pos + 3 * cols + pad, rows - 1, cols, pad);
      assert pos + (rows - 1) * (3 * cols + pad) == (pos + 3 * cols + pad) + (rows - 2) * (3 * cols + pad);
    }
  }

  /** One pixel of the column loop: read, filtered field by field, written. */
  method ProcessPixel(data: seq<byte>, pos: int) returns (triple: Rgb)
    requires 0 <= pos && pos + 3 <= |data|
    ensures triple == Filter(TripleAt(data, pos))
  {
    triple := Rgb(data[pos], data[pos + 1], data[pos + 2]);
    if triple.red > 0xf0 && triple.green < 0x80 && triple.blue < 0x80 {
      triple := triple.(red := 0xff);
      triple := triple.(green := 0xff);
      triple := triple.(blue := 0xff);
    } else {
      if triple.red < 0x80 {
        triple := triple.(red := 0x00);
      }
      if triple.green < 0x80 {
        triple := triple.(green := 0x00);
      }
      if triple.blue < 0x80 {
        triple := triple.(blue := 0x00);
      }
    }
  }

  /**
   * The column loop over `biWidth` pixels from `pos`; `ok` is false when
   * a pixel `fread` fails.
   */
  method FilterScanline(data: seq<byte>, pos: int, width: int) returns (line: seq<byte>, at: int, ok: bool)
    requires pos >= 0
    ensures ok <==> Columns(width) == 0 || pos + 3 * Columns(width) <= |data|
    ensures ok ==> line == Encode(FilterAll(RowPixels(data, pos, Columns(width)))) && at == pos + 3 * Columns(width)
  {
    line := [];
    at := pos;
    var col := 0;
    while col < width
      invariant 0 <= col <= Columns(width) && at == pos + 3 * col
      invariant col == 0 || pos + 3 * col <= |data|
      invariant line == Encode(FilterAll(RowPixels(data, pos, col)))
    {
      if at + 3 > |data| {
        return line, at, false;
      }
      var triple := ProcessPixel(data, at);
      FilteredStep(data, pos, col, at);
      line := line + TripleBytes(triple);
      at := at + 3;
      col := col + 1;
    }
    assert col == Columns(width);
    ok := true;
  }

  /** One more pixel read from `at` appends its filtered bytes. */
  lemma FilteredStep(data: seq<byte>, pos: int, col: nat, at: int)
    requires 0 <= pos && at == pos + 3 * col && at + 3 <= |data|
    ensures Encode(FilterAll(RowPixels(data, pos, col + 1)))
         == Encode(FilterAll(RowPixels(data, pos, col))) + TripleBytes(Filter(TripleAt(data, at)))
  {
    var front, t := RowPixels(data, pos, col), TripleAt(data, at);
    assert RowPixels(data, pos, col + 1) == front + [t];
    FilterAllSnoc(front, t);
    EncodeSnoc(FilterAll(front), Filter(t));
  }

  /** Filtering a row with one more pixel filters that pixel too. */
  lemma FilterAllSnoc(ps: seq<Rgb>, t: Rgb)
    ensures FilterAll(ps + [t]) == FilterAll(ps) + [Filter(t)]
  {
  }

  /** With no scanline left the output is the whole image. */
  lemma ImageDone(image: Option<seq<byte>>, pixels: seq<byte>, data: seq<byte>, pos: int, cols: nat, pad: nat)
    requires pos >= 0 && image == Prepend(pixels, Image(data, pos, 0, cols, pad))
    ensures image == Some(pixels)
  {
    assert pixels + [] == pixels;
  }

  /**
   * One pass of the scanline loop: the row filtered, the input padding
   * skipped and the output padding written. It either fails, and then the
   * image from `pos` is missing, or it yields the bytes that the image from
   * `pos` puts before the image from `next`.
   */
  method FilterRow(data: seq<byte>, pos: int, width: int, padding: int, ghost rows: nat)
      returns (line: seq<byte>, next: int, ok: bool)
    requires pos >= 0 && rows > 0 && padding == Padding(width)
    ensures ok ==> next >= 0
    ensures ok ==> Image(data, pos, rows, Columns(width), padding) == Prepend(line, Image(data, next, rows - 1, Columns(width), padding))
    ensures !ok ==> Image(data, pos, rows, Columns(width), padding).None?
  {
    var at;
    line, at, ok := FilterScanline(data, pos, width);
    if !ok {
      return line, pos, false;
    }
    line := WritePadding(line, padding);
    next := at + padding;
  }

  /**
   * The scanline loop of `main`: `abs(biHeight)` rows, each filtered, the
   * input padding skipped with `fseek` and the output padding written;
   * `ok` is false when a pixel `fread` fails.
   */
  method FilterImage(data: seq<byte>, width: int, height: int) returns (pixels: seq<byte>, ok: bool)
    ensures var image := Image(data, 0, Abs(height), Columns(width), Padding(width));
      (ok <==> image.Some?) && (ok ==> pixels == image.value)
  {
    var padding := Padding(width);
    var absHeight := Abs(height);
    ghost var cols := Columns(width);
    ghost var image := Image(data, 0, absHeight, cols, padding);
    pixels := [];
    var pos := 0;
    var row := 0;
    assert image == Prepend(pixels, image) by {
      assert image.Some? ==> [] + image.value == image.value;
    }
    while row < absHeight
      invariant 0 <= row <= absHeight && pos >= 0
      invariant image == Prepend(pixels, Image(data, pos, absHeight - row, cols, padding))
    {
      var line, next, rowOk := FilterRow(data, pos, width, padding, absHeight - row);
      if !rowOk {
        return pixels, false;
      }
      PrependAssoc(pixels, line, Image(data, next, absHeight - row - 1, cols, padding));
      pixels := pixels + line;
      pos := next;
      row := row + 1;
    }
    ImageDone(image, pixels, data, pos, cols, padding);
    ok := true;
  }

  /**
   * `main` after the files are open: headers read (`None` when `fread`
   * fails), the format check, the headers copied unchanged, then every
   * scanline filtered, the first failing pixel read ending the run with 8.
   */
  method Program(argc: int, bf: Option<FileHeader>, bi: Option<InfoHeader>, data: seq<byte>) returns (run: Run)
    ensures argc != 3 ==> run == Failed(1)
    ensures argc == 3 && bf.None? ==> run == Failed(4)
    ensures argc == 3 && bf.Some? && bi.None? ==> run == Failed(5)
    ensures argc == 3 && bf.Some? && bi.Some? && !Supported(bf.value, bi.value) ==> run == Failed(6)
    ensures argc == 3 && bf.Some? && bi.Some? && Supported(bf.value, bi.value) ==>
      var image := Image(data, 0, Abs(bi.value.biHeight), Columns(bi.value.biWidth), Padding(bi.value.biWidth));
      (image.None? ==> run == Failed(8)) &&
      (image.Some? ==> run == Done(bf.value, bi.value, image.value))
  {
    if argc != 3 {
      return Failed(1);
    }
    if bf.None? {
      return Failed(4);
    }
    if bi.None? {
      return Failed(5);
    }
    if !Supported(bf.value, bi.value) {
      return Failed(6);
    }
    var pixels, ok := FilterImage(data, bi.value.biWidth, bi.value.biHeight);
    if !ok {
      return Failed(8);
    }
    return Done(bf.value, bi.value, pixels);
  }
}
