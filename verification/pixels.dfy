/**
 * The pixel buffer of utils_conc.c. `create3DMatrix` allocates one contiguous
 * zeroed block of height * width * channels bytes and a table of pointers so
 * that `m[y][x]` points at byte offset (y * width + x) * channels; `loadPNG`
 * and `savePNG` copy pixels between that view and a flat row-major buffer.
 *
 * Here an image is the nested view (rows of pixels of channel samples), and
 * the flat buffer is a `seq<Byte>` addressed through `Offset`.
 */
module Pixels {
  import opened Numeric

  /** The channel samples of one pixel. */
  type Pixel = seq<Byte>
  type Row = seq<Pixel>
  type Grid = seq<Row>

  /** A row of exactly `w` pixels, each with exactly `ch` channels. */
  predicate RowShaped(row: Row, w: nat, ch: nat)
  {
    && |row| == w
    && forall x :: 0 <= x < w ==> |row[x]| == ch
  }

  /** An image buffer: `px[y][x][c]` is channel `c` of the pixel in row `y`, column `x`. */
  datatype Image = Image(width: nat, height: nat, channels: nat, px: Grid)
  {
    predicate Valid()
    {
      && |px| == height
      && forall y :: 0 <= y < height ==> RowShaped(px[y], width, channels)
    }

    predicate SameShape(other: Image)
    {
      && width == other.width
      && height == other.height
      && channels == other.channels
    }
  }

  /** Two valid images of the same shape that agree on every sample are equal. */
  lemma ImageExt(a: Image, b: Image)
    requires a.Valid() && b.Valid() && a.SameShape(b)
    requires forall y, x, c :: 0 <= y < a.height && 0 <= x < a.width && 0 <= c < a.channels ==>
               a.px[y][x][c] == b.px[y][x][c]
    ensures a == b
  {
    forall y | 0 <= y < a.height
      ensures a.px[y] == b.px[y]
    {
      forall x | 0 <= x < a.width
        ensures a.px[y][x] == b.px[y][x]
      {
      }
    }
  }

  /** Byte offset of sample (y, x, c) in the contiguous block. */
  function Offset(w: nat, ch: nat, y: nat, x: nat, c: nat): nat
  {
    (y * w + x) * ch + c
  }

  /** Sample (y, x, c) comes strictly before sample (y', x', c') in row-major order. */
  predicate Precedes(y: nat, x: nat, c: nat, y': nat, x': nat, c': nat)
  {
    y < y' || (y == y' && x < x') || (y == y' && x == x' && c < c')
  }

  /** Mixed-radix digits compare lexicographically: a * n + b with b < n. */
  lemma DigitsOrdered(a: nat, b: nat, a': nat, b': nat, n: nat)
    requires b < n && b' < n
    requires a < a' || (a == a' && b < b')
    ensures a * n + b < a' * n + b'
  {
    if a < a' {
      var d: nat := a' - a - 1;
      calc {
        a' * n;
        (a + 1 + d) * n;
        a * n + n + d * n;
      }
      assert 0 <= d * n;
    }
  }

  /** Offsets grow strictly in row-major order. */
  lemma OffsetOrdered(w: nat, ch: nat, y: nat, x: nat, c: nat, y': nat, x': nat, c': nat)
    requires x < w && x' < w && c < ch && c' < ch
    requires Precedes(y, x, c, y', x', c')
    ensures Offset(w, ch, y, x, c) < Offset(w, ch, y', x', c')
  {
    if y < y' || x < x' {
      DigitsOrdered(y, x, y', x', w);
      DigitsOrdered(y * w + x, c, y' * w + x', c', ch);
    } else {
      DigitsOrdered(y * w + x, c, y' * w + x', c', ch);
    }
  }

  /** Every in-range sample lies inside the height * width * channels block. */
  lemma OffsetInBlock(w: nat, h: nat, ch: nat, y: nat, x: nat, c: nat)
    requires y < h && x < w && c < ch
    ensures Offset(w, ch, y, x, c) < h * w * ch
  {
    DigitsOrdered(y, x, h - 1, w, w + 1);
    assert y * w + x < h * w by {
      DigitsOrdered(y, x, h, 0, w);
    }
    DigitsOrdered(y * w + x, c, h * w, 0, ch);
  }

  /** Distinct in-range samples never share a byte of the block. */
  lemma OffsetInjective(w: nat, ch: nat, y: nat, x: nat, c: nat, y': nat, x': nat, c': nat)
    requires x < w && x' < w && c < ch && c' < ch
    requires Offset(w, ch, y, x, c) == Offset(w, ch, y', x', c')
    ensures y == y' && x == x' && c == c'
  {
    if Precedes(y, x, c, y', x', c') {
      OffsetOrdered(w, ch, y, x, c, y', x', c');
    } else if Precedes(y', x', c', y, x, c) {
      OffsetOrdered(w, ch, y', x', c', y, x, c);
    }
  }

  /** A quotient stays below the bound its dividend stays below, in units of the divisor. */
  lemma QuotientBelow(a: nat, b: nat, n: nat)
    requires n > 0 && a < b * n
    ensures 0 <= a / n < b
  {
  }

  /** A positive product of naturals has positive factors. */
  lemma FactorsPositive(a: nat, b: nat)
    requires a * b > 0
    ensures a > 0 && b > 0
  {
  }

  /** Every byte of the block is the offset of some in-range sample. */
  lemma OffsetOnto(w: nat, h: nat, ch: nat, i: nat)
    requires i < h * w * ch
    ensures w > 0 && ch > 0
    ensures 0 <= i / ch && 0 <= (i / ch) / w < h
    ensures Offset(w, ch, (i / ch) / w, (i / ch) % w, i % ch) == i
  {
    FactorsPositive(h * w, ch);
    FactorsPositive(h, w);
    QuotientBelow(i, h * w, ch);
    QuotientBelow(i / ch, h, w);
    OffsetOfQuotients(w, ch, i);
  }

  /** Splitting i by ch and then by w gives back i through `Offset`. */
  lemma OffsetOfQuotients(w: nat, ch: nat, i: nat)
    requires w > 0 && ch > 0
    ensures Offset(w, ch, (i / ch) / w, (i / ch) % w, i % ch) == i
  {
    var p := i / ch;
    assert p * ch + i % ch == i;
    assert Offset(w, ch, p / w, p % w, i % ch) == p * ch + i % ch by {
      assert (p / w) * w + p % w == p;
    }
  }

  /** Sample (y, x, c) of a flat buffer, addressed through `Offset`. */
  function FlatAt(data: seq<Byte>, w: nat, h: nat, ch: nat, y: nat, x: nat, c: nat): (b: Byte)
    requires |data| == h * w * ch && y < h && x < w && c < ch
    ensures Offset(w, ch, y, x, c) < |data| && b == data[Offset(w, ch, y, x, c)]
  {
    OffsetInBlock(w, h, ch, y, x, c);
    data[Offset(w, ch, y, x, c)]
  }

  /** The nested view of a flat row-major buffer, which LoadPixels builds. */
  function Load(data: seq<Byte>, w: nat, h: nat, ch: nat): (img: Image)
    requires |data| == h * w * ch
    ensures img.Valid() && img.width == w && img.height == h && img.channels == ch
    ensures forall y, x, c :: 0 <= y < h && 0 <= x < w && 0 <= c < ch ==>
              img.px[y][x][c] == FlatAt(data, w, h, ch, y, x, c)
  {
    Image(w, h, ch,
      seq(h, y requires 0 <= y < h =>
        seq(w, x requires 0 <= x < w =>
          seq(ch, c requires 0 <= c < ch => FlatAt(data, w, h, ch, y, x, c)))))
  }

  /** Sample (y, x, c) of the loaded image is the byte at its offset. */
  lemma LoadAt(data: seq<Byte>, w: nat, h: nat, ch: nat, y: nat, x: nat, c: nat)
    requires |data| == h * w * ch && y < h && x < w && c < ch
    ensures Offset(w, ch, y, x, c) < |data|
    ensures Load(data, w, h, ch).px[y][x][c] == data[Offset(w, ch, y, x, c)]
  {
    assert Load(data, w, h, ch).px[y][x][c] == FlatAt(data, w, h, ch, y, x, c);
  }

  /**
   * Every byte of the buffer shows up in the loaded image: byte i is the
   * sample at the position `OffsetOnto` recovers from i.
   */
  lemma LoadOnto(data: seq<Byte>, w: nat, h: nat, ch: nat, i: nat)
    requires |data| == h * w * ch && i < |data|
    ensures w > 0 && ch > 0 && (i / ch) / w < h
    ensures Load(data, w, h, ch).px[(i / ch) / w][(i / ch) % w][i % ch] == data[i]
  {
    OffsetOnto(w, h, ch, i);
    var p: nat := i / ch;
    var y: nat := p / w;
    LoadAt(data, w, h, ch, y, p % w, i % ch);
  }

  /** Two buffers that load to the same image are the same buffer. */
  lemma LoadInjective(a: seq<Byte>, b: seq<Byte>, w: nat, h: nat, ch: nat)
    requires |a| == h * w * ch && |b| == h * w * ch
    requires Load(a, w, h, ch) == Load(b, w, h, ch)
    ensures a == b
  {
    forall i | 0 <= i < |a|
      ensures a[i] == b[i]
    {
      LoadOnto(a, w, h, ch, i);
      LoadOnto(b, w, h, ch, i);
    }
  }

  /** Sample (y, x, c) of `img` holds the byte at its offset in `data`. */
  ghost predicate Copied(img: Image, data: seq<Byte>, y: nat, x: nat, c: nat)
    requires img.Valid() && |data| == img.height * img.width * img.channels
    requires y < img.height && x < img.width && c < img.channels
  {
    img.px[y][x][c] == FlatAt(data, img.width, img.height, img.channels, y, x, c)
  }

  /**
   * `loadPNG`'s copy loop: into a fresh `create3DMatrix` view, each pixel
   * receives the `ch` bytes at offset (y * w + x) * ch of the decoded buffer.
   */
  method LoadPixels(data: seq<Byte>, w: nat, h: nat, ch: nat) returns (img: Image)
    requires |data| == h * w * ch
    ensures img.Valid() && img.width == w && img.height == h && img.channels == ch
    ensures forall y, x, c :: 0 <= y < h && 0 <= x < w && 0 <= c < ch ==> Copied(img, data, y, x, c)
    ensures img == Load(data, w, h, ch)
  {
    img := Create3DMatrix(h, w, ch);
    var y := 0;
    while y < h
      invariant 0 <= y <= h
      invariant img.Valid() && img.width == w && img.height == h && img.channels == ch
      invariant forall yy, xx, cc :: 0 <= yy < h && 0 <= xx < w && 0 <= cc < ch && yy < y ==>
                  Copied(img, data, yy, xx, cc)
    {
      var x := 0;
      while x < w
        invariant 0 <= x <= w
        invariant img.Valid() && img.width == w && img.height == h && img.channels == ch
        invariant forall yy, xx, cc :: 0 <= yy < h && 0 <= xx < w && 0 <= cc < ch && Precedes(yy, xx, cc, y, x, 0) ==>
                    Copied(img, data, yy, xx, cc)
      {
        var k := 0;
        while k < ch
          invariant 0 <= k <= ch
          invariant img.Valid() && img.width == w && img.height == h && img.channels == ch
          invariant forall yy, xx, cc :: 0 <= yy < h && 0 <= xx < w && 0 <= cc < ch && Precedes(yy, xx, cc, y, x, k) ==>
                      Copied(img, data, yy, xx, cc)
        {
          var before := img;
          var p := img.px[y][x][k := FlatAt(data, w, h, ch, y, x, k)];
          img := img.(px := img.px[y := img.px[y][x := p]]);
          forall yy, xx, cc | 0 <= yy < h && 0 <= xx < w && 0 <= cc < ch && Precedes(yy, xx, cc, y, x, k + 1)
            ensures Copied(img, data, yy, xx, cc)
          {
            if Precedes(yy, xx, cc, y, x, k) {
              assert Copied(before, data, yy, xx, cc);
            }
          }
          k := k + 1;
        }
        x := x + 1;
      }
      y := y + 1;
    }
    var ref := Load(data, w, h, ch);
    forall yy, xx, cc | 0 <= yy < h && 0 <= xx < w && 0 <= cc < ch
      ensures img.px[yy][xx][cc] == ref.px[yy][xx][cc]
    {
      assert Copied(img, data, yy, xx, cc);
    }
    ImageExt(img, ref);
  }

  /** `create3DMatrix`: the view over a freshly `calloc`ed block. */
  function Create3DMatrix(height: nat, width: nat, channels: nat): (m: Image)
    ensures m.Valid()
    ensures m.width == width && m.height == height && m.channels == channels
    ensures forall y, x, c :: 0 <= y < height && 0 <= x < width && 0 <= c < channels ==> m.px[y][x][c] == 0
  {
    Load(seq(height * width * channels, _ => 0), width, height, channels)
  }

  /** Sample (y, x, c) of `img` has been copied to its offset in `flat`. */
  ghost predicate Saved(flat: seq<Byte>, img: Image, y: nat, x: nat, c: nat)
    requires img.Valid() && y < img.height && x < img.width && c < img.channels
  {
    && Offset(img.width, img.channels, y, x, c) < |flat|
    && flat[Offset(img.width, img.channels, y, x, c)] == img.px[y][x][c]
  }

  /** `savePNG`'s copy loop: flatten the view into a row-major buffer. */
  method SavePixels(img: Image) returns (flat: seq<Byte>)
    requires img.Valid()
    ensures |flat| == img.height * img.width * img.channels
    ensures forall y, x, c :: 0 <= y < img.height && 0 <= x < img.width && 0 <= c < img.channels ==>
              Saved(flat, img, y, x, c)
    ensures Load(flat, img.width, img.height, img.channels) == img
  {
    var w, h, ch := img.width, img.height, img.channels;
    flat := seq(h * w * ch, _ => 0);
    var y := 0;
    while y < h
      invariant 0 <= y <= h
      invariant |flat| == h * w * ch
      invariant forall yy, xx, cc :: 0 <= yy < h && 0 <= xx < w && 0 <= cc < ch && yy < y ==>
                  Saved(flat, img, yy, xx, cc)
    {
      var x := 0;
      while x < w
        invariant 0 <= x <= w
        invariant |flat| == h * w * ch
        invariant forall yy, xx, cc :: 0 <= yy < h && 0 <= xx < w && 0 <= cc < ch && Precedes(yy, xx, cc, y, x, 0) ==>
                    Saved(flat, img, yy, xx, cc)
      {
        var k := 0;
        while k < ch
          invariant 0 <= k <= ch
          invariant |flat| == h * w * ch
          invariant forall yy, xx, cc :: 0 <= yy < h && 0 <= xx < w && 0 <= cc < ch && Precedes(yy, xx, cc, y, x, k) ==>
                      Saved(flat, img, yy, xx, cc)
        {
          var o := Offset(w, ch, y, x, k);
          OffsetInBlock(w, h, ch, y, x, k);
          var before := flat;
          flat := flat[o := img.px[y][x][k]];
          forall yy, xx, cc | 0 <= yy < h && 0 <= xx < w && 0 <= cc < ch && Precedes(yy, xx, cc, y, x, k + 1)
            ensures Saved(flat, img, yy, xx, cc)
          {
            if Precedes(yy, xx, cc, y, x, k) {
              OffsetOrdered(w, ch, yy, xx, cc, y, x, k);
              assert Saved(before, img, yy, xx, cc);
            }
          }
          k := k + 1;
        }
        x := x + 1;
      }
      y := y + 1;
    }
    SavedLoads(flat, img);
  }

  /** A buffer that holds every sample of `img` at its offset loads back as `img`. */
  lemma SavedLoads(flat: seq<Byte>, img: Image)
    requires img.Valid() && |flat| == img.height * img.width * img.channels
    requires forall y, x, c :: 0 <= y < img.height && 0 <= x < img.width && 0 <= c < img.channels ==>
               Saved(flat, img, y, x, c)
    ensures Load(flat, img.width, img.height, img.channels) == img
  {
    var w, h, ch := img.width, img.height, img.channels;
    var back := Load(flat, w, h, ch);
    forall yy, xx, cc | 0 <= yy < h && 0 <= xx < w && 0 <= cc < ch
      ensures back.px[yy][xx][cc] == img.px[yy][xx][cc]
    {
      assert Saved(flat, img, yy, xx, cc);
    }
    ImageExt(back, img);
  }

  /** Loading a decoded buffer and saving the image again gives back the same bytes. */
  method SaveAfterLoad(data: seq<Byte>, w: nat, h: nat, ch: nat) returns (flat: seq<Byte>)
    requires |data| == h * w * ch
    ensures flat == data
  {
    var img := LoadPixels(data, w, h, ch);
    flat := SavePixels(img);
    LoadInjective(flat, data, w, h, ch);
  }
}
