/** `copy_image` of the glyph atlas: blitting an RGBA sprite into a flat
    RGBA byte buffer `atlasWidth` pixels wide, with the source's index
    arithmetic. The specification is the sequence of writes the two nested
    loops make, in loop order; the lemmas then say which bytes end up where. */
module AtlasImage {

  type Byte = x: int | 0 <= x < 256

  /** An RGBA bitmap: 4 bytes per pixel, row after row, `bmpWidth` pixels a row. */
  datatype Sprite = Sprite(bmp: seq<Byte>, bmpWidth: nat, bmpHeight: nat)

  /** Every source byte `copy_image` reads exists. */
  predicate SpriteFits(s: Sprite)
  {
    4 * (s.bmpHeight * s.bmpWidth) <= |s.bmp|
  }

  /** Every destination byte `copy_image` writes into a buffer of `len`
      bytes exists: the last byte written is that of the last pixel of the
      last row. */
  predicate DestFits(s: Sprite, x: nat, y: nat, atlasWidth: nat, len: nat)
  {
    s.bmpWidth == 0 || s.bmpHeight == 0 ||
    4 * ((y + s.bmpHeight - 1) * atlasWidth + x + s.bmpWidth) <= len
  }

  /** `off_src + c` for pixel (i, j) of the sprite and channel c. */
  function SrcIndex(s: Sprite, i: nat, j: nat, c: nat): nat
  {
    4 * (i * s.bmpWidth + j) + c
  }

  /** `off_dest + c` for pixel (i, j) of a sprite placed at (x, y). */
  function DestIndex(x: nat, y: nat, atlasWidth: nat, i: nat, j: nat, c: nat): nat
  {
    4 * ((y + i) * atlasWidth + x + j) + c
  }

  lemma MulLeq(a: nat, b: nat, k: nat)
    requires a <= b
    ensures a * k <= b * k
  {
  }

  /** The offsets of any pixel of the sprite are in bounds on both sides. */
  lemma OffsetsInBounds(s: Sprite, x: nat, y: nat, atlasWidth: nat, len: nat, i: nat, j: nat)
    requires SpriteFits(s) && DestFits(s, x, y, atlasWidth, len)
    requires i < s.bmpHeight && j < s.bmpWidth
    ensures SrcIndex(s, i, j, 3) < |s.bmp|
    ensures DestIndex(x, y, atlasWidth, i, j, 3) < len
  {
    MulLeq(i + 1, s.bmpHeight, s.bmpWidth);
    assert (i + 1) * s.bmpWidth == i * s.bmpWidth + s.bmpWidth;
    MulLeq(y + i, y + s.bmpHeight - 1, atlasWidth);
  }

  /** Pixel slots of two sprites placed on the same row band y: a slot on
      an earlier row (that does not overhang the row end) or further left on
      the same row lies wholly before the other. */
  lemma PixelBefore(x1: nat, x2: nat, y: nat, atlasWidth: nat, i1: nat, j1: nat, i2: nat, j2: nat)
    requires (i1 < i2 && x1 + j1 < atlasWidth) || (i1 == i2 && x1 + j1 < x2 + j2)
    ensures DestIndex(x1, y, atlasWidth, i1, j1, 0) + 4 <= DestIndex(x2, y, atlasWidth, i2, j2, 0)
  {
    if i1 < i2 {
      MulLeq(y + i1 + 1, y + i2, atlasWidth);
      assert (y + i1 + 1) * atlasWidth == (y + i1) * atlasWidth + atlasWidth;
    }
  }

  /** The four bytes of one pixel copied from `src` to `dest`. */
  function PutPixel(buf: seq<Byte>, dest: nat, bmp: seq<Byte>, src: nat): (r: seq<Byte>)
    requires dest + 4 <= |buf| && src + 4 <= |bmp|
    ensures |r| == |buf|
    ensures r[dest] == bmp[src] && r[dest + 1] == bmp[src + 1]
    ensures r[dest + 2] == bmp[src + 2] && r[dest + 3] == bmp[src + 3]
  {
    buf[dest := bmp[src]][dest + 1 := bmp[src + 1]][dest + 2 := bmp[src + 2]][dest + 3 := bmp[src + 3]]
  }

  /** A pixel write changes no byte outside its four. */
  lemma PutPixelElsewhere(buf: seq<Byte>, dest: nat, bmp: seq<Byte>, src: nat, o: nat)
    requires dest + 4 <= |buf| && src + 4 <= |bmp|
    requires o < |buf| && (o < dest || dest + 4 <= o)
    ensures PutPixel(buf, dest, bmp, src)[o] == buf[o]
  {
  }

  /** The buffer after the inner loop has copied pixels 0..j of row i. */
  function CopyRow(buf: seq<Byte>, s: Sprite, x: nat, y: nat, atlasWidth: nat, i: nat, j: nat): (r: seq<Byte>)
    requires SpriteFits(s) && DestFits(s, x, y, atlasWidth, |buf|)
    requires i < s.bmpHeight && j <= s.bmpWidth
    ensures |r| == |buf|
    decreases j
  {
    if j == 0 then buf
    else
      var prev := CopyRow(buf, s, x, y, atlasWidth, i, j - 1);
      OffsetsInBounds(s, x, y, atlasWidth, |buf|, i, j - 1);
      PutPixel(prev, DestIndex(x, y, atlasWidth, i, j - 1, 0), s.bmp, SrcIndex(s, i, j - 1, 0))
  }

  /** The buffer after the outer loop has copied rows 0..i. */
  function CopyRows(buf: seq<Byte>, s: Sprite, x: nat, y: nat, atlasWidth: nat, i: nat): (r: seq<Byte>)
    requires SpriteFits(s) && DestFits(s, x, y, atlasWidth, |buf|)
    requires i <= s.bmpHeight
    ensures |r| == |buf|
    decreases i
  {
    if i == 0 then buf
    else CopyRow(CopyRows(buf, s, x, y, atlasWidth, i - 1), s, x, y, atlasWidth, i - 1, s.bmpWidth)
  }

  /** The buffer after `copy_image(sprite, x, y, atlas, atlas_width)`. */
  function CopyImageSpec(buf: seq<Byte>, s: Sprite, x: nat, y: nat, atlasWidth: nat): (r: seq<Byte>)
    requires SpriteFits(s) && DestFits(s, x, y, atlasWidth, |buf|)
    ensures |r| == |buf|
  {
    CopyRows(buf, s, x, y, atlasWidth, s.bmpHeight)
  }

  /** `copy_image`: the nested loops over rows and columns, each step
      copying the four channels of one pixel. */
  method CopyImage(sprite: Sprite, x: nat, y: nat, atlas: array<Byte>, atlasWidth: nat)
    requires SpriteFits(sprite) && DestFits(sprite, x, y, atlasWidth, atlas.Length)
    modifies atlas
    ensures atlas[..] == CopyImageSpec(old(atlas[..]), sprite, x, y, atlasWidth)
  {
    ghost var orig := atlas[..];
    for i := 0 to sprite.bmpHeight
      invariant atlas[..] == CopyRows(orig, sprite, x, y, atlasWidth, i)
    {
      ghost var rowStart := atlas[..];
      for j := 0 to sprite.bmpWidth
        invariant atlas[..] == CopyRow(rowStart, sprite, x, y, atlasWidth, i, j)
      {
        // off_src = 4 * (i * bmp_width + j), off_dest = 4 * ((y + i) * atlas_width + j + x)
        var offSrc := SrcIndex(sprite, i, j, 0);
        var offDest := DestIndex(x, y, atlasWidth, i, j, 0);

        CopyRowStep(rowStart, sprite, x, y, atlasWidth, i, j, offSrc, offDest);
        CopyPixel(atlas, offDest, sprite.bmp, offSrc);
      }
    }
  }

  /** One step of the inner loop: `off_src` and `off_dest` are in bounds and
      copying that pixel extends the row by one column. */
  lemma CopyRowStep(buf: seq<Byte>, s: Sprite, x: nat, y: nat, atlasWidth: nat, i: nat, j: nat,
                    offSrc: nat, offDest: nat)
    requires SpriteFits(s) && DestFits(s, x, y, atlasWidth, |buf|)
    requires i < s.bmpHeight && j < s.bmpWidth
    requires offSrc == SrcIndex(s, i, j, 0)
    requires offDest == DestIndex(x, y, atlasWidth, i, j, 0)
    ensures offSrc + 4 <= |s.bmp| && offDest + 4 <= |buf|
    ensures CopyRow(buf, s, x, y, atlasWidth, i, j + 1)
            == PutPixel(CopyRow(buf, s, x, y, atlasWidth, i, j), offDest, s.bmp, offSrc)
  {
    OffsetsInBounds(s, x, y, atlasWidth, |buf|, i, j);
  }

  /** The four channel writes of one pixel in `copy_image`'s inner loop. */
  method CopyPixel(atlas: array<Byte>, offDest: nat, bmp: seq<Byte>, offSrc: nat)
    requires offDest + 4 <= atlas.Length && offSrc + 4 <= |bmp|
    modifies atlas
    ensures atlas[..] == PutPixel(old(atlas[..]), offDest, bmp, offSrc)
  {
    atlas[offDest] := bmp[offSrc];
    atlas[offDest + 1] := bmp[offSrc + 1];
    atlas[offDest + 2] := bmp[offSrc + 2];
    atlas[offDest + 3] := bmp[offSrc + 3];
  }

  // ---------------------------------------------------------------------
  // Which bytes change

  /** Offset `o` is outside every pixel slot of the sprite placed at (x, y). */
  ghost predicate OutsideSprite(s: Sprite, x: nat, y: nat, atlasWidth: nat, o: nat)
  {
    forall i, j :: 0 <= i < s.bmpHeight && 0 <= j < s.bmpWidth ==>
      o < DestIndex(x, y, atlasWidth, i, j, 0) || DestIndex(x, y, atlasWidth, i, j, 0) + 4 <= o
  }

  lemma {:induction false} CopyRowsUntouched(buf: seq<Byte>, s: Sprite, x: nat, y: nat, atlasWidth: nat,
                                             i: nat, o: nat)
    requires SpriteFits(s) && DestFits(s, x, y, atlasWidth, |buf|)
    requires i <= s.bmpHeight && o < |buf|
    requires OutsideSprite(s, x, y, atlasWidth, o)
    ensures CopyRows(buf, s, x, y, atlasWidth, i)[o] == buf[o]
    decreases i
  {
    if i > 0 {
      CopyRowsUntouched(buf, s, x, y, atlasWidth, i - 1, o);
      RowUntouched(CopyRows(buf, s, x, y, atlasWidth, i - 1), s, x, y, atlasWidth, i - 1, s.bmpWidth, o);
    }
  }

  /** `copy_image` leaves every byte outside the sprite's pixel slots as it was. */
  lemma CopyImageUntouched(buf: seq<Byte>, s: Sprite, x: nat, y: nat, atlasWidth: nat, o: nat)
    requires SpriteFits(s) && DestFits(s, x, y, atlasWidth, |buf|)
    requires o < |buf| && OutsideSprite(s, x, y, atlasWidth, o)
    ensures CopyImageSpec(buf, s, x, y, atlasWidth)[o] == buf[o]
  {
    CopyRowsUntouched(buf, s, x, y, atlasWidth, s.bmpHeight, o);
  }

  /** Pixel slot (i, j) of the sprite holds its source pixel, channel by channel. */
  ghost predicate PixelCopied(r: seq<Byte>, s: Sprite, x: nat, y: nat, atlasWidth: nat, i: nat, j: nat)
  {
    forall c :: 0 <= c < 4 ==>
      && DestIndex(x, y, atlasWidth, i, j, c) < |r|
      && SrcIndex(s, i, j, c) < |s.bmp|
      && r[DestIndex(x, y, atlasWidth, i, j, c)] == s.bmp[SrcIndex(s, i, j, c)]
  }

  lemma {:induction false} CopyRowWritten(buf: seq<Byte>, s: Sprite, x: nat, y: nat, atlasWidth: nat,
                                          i: nat, j: nat)
    requires SpriteFits(s) && DestFits(s, x, y, atlasWidth, |buf|)
    requires i < s.bmpHeight && j <= s.bmpWidth
    ensures forall jj :: 0 <= jj < j ==> PixelCopied(CopyRow(buf, s, x, y, atlasWidth, i, j), s, x, y, atlasWidth, i, jj)
    decreases j
  {
    if j > 0 {
      CopyRowWritten(buf, s, x, y, atlasWidth, i, j - 1);
      var prev := CopyRow(buf, s, x, y, atlasWidth, i, j - 1);
      var d := DestIndex(x, y, atlasWidth, i, j - 1, 0);
      OffsetsInBounds(s, x, y, atlasWidth, |buf|, i, j - 1);
      forall jj | 0 <= jj < j
        ensures PixelCopied(CopyRow(buf, s, x, y, atlasWidth, i, j), s, x, y, atlasWidth, i, jj)
      {
        if jj < j - 1 {
          PixelBefore(x, x, y, atlasWidth, i, jj, i, j - 1);
          assert PixelCopied(prev, s, x, y, atlasWidth, i, jj);
          forall c | 0 <= c < 4
            ensures CopyRow(buf, s, x, y, atlasWidth, i, j)[DestIndex(x, y, atlasWidth, i, jj, c)]
                    == prev[DestIndex(x, y, atlasWidth, i, jj, c)]
          {
            PutPixelElsewhere(prev, d, s.bmp, SrcIndex(s, i, j - 1, 0), DestIndex(x, y, atlasWidth, i, jj, c));
          }
        }
      }
    }
  }

  lemma {:induction false} CopyRowsWritten(buf: seq<Byte>, s: Sprite, x: nat, y: nat, atlasWidth: nat, i: nat)
    requires SpriteFits(s) && DestFits(s, x, y, atlasWidth, |buf|)
    requires x + s.bmpWidth <= atlasWidth
    requires i <= s.bmpHeight
    ensures forall ii, jj :: 0 <= ii < i && 0 <= jj < s.bmpWidth ==>
      PixelCopied(CopyRows(buf, s, x, y, atlasWidth, i), s, x, y, atlasWidth, ii, jj)
    decreases i
  {
    if i > 0 {
      CopyRowsWritten(buf, s, x, y, atlasWidth, i - 1);
      var prev := CopyRows(buf, s, x, y, atlasWidth, i - 1);
      CopyRowWritten(prev, s, x, y, atlasWidth, i - 1, s.bmpWidth);
      forall ii, jj | 0 <= ii < i - 1 && 0 <= jj < s.bmpWidth
        ensures PixelCopied(CopyRows(buf, s, x, y, atlasWidth, i), s, x, y, atlasWidth, ii, jj)
      {
        assert PixelCopied(prev, s, x, y, atlasWidth, ii, jj);
        forall c | 0 <= c < 4
          ensures CopyRows(buf, s, x, y, atlasWidth, i)[DestIndex(x, y, atlasWidth, ii, jj, c)]
                  == prev[DestIndex(x, y, atlasWidth, ii, jj, c)]
        {
          var o := DestIndex(x, y, atlasWidth, ii, jj, c);
          forall i2, j2 | 0 <= i2 < s.bmpHeight && 0 <= j2 < s.bmpWidth && i2 == i - 1
            ensures o < DestIndex(x, y, atlasWidth, i2, j2, 0) || DestIndex(x, y, atlasWidth, i2, j2, 0) + 4 <= o
          {
            PixelBefore(x, x, y, atlasWidth, ii, jj, i2, j2);
          }
          RowUntouched(prev, s, x, y, atlasWidth, i - 1, s.bmpWidth, o);
        }
      }
    }
  }

  /** A byte outside every pixel slot of row i is not changed by that row. */
  lemma {:induction false} RowUntouched(buf: seq<Byte>, s: Sprite, x: nat, y: nat, atlasWidth: nat,
                                        i: nat, j: nat, o: nat)
    requires SpriteFits(s) && DestFits(s, x, y, atlasWidth, |buf|)
    requires i < s.bmpHeight && j <= s.bmpWidth && o < |buf|
    requires forall i2, j2 :: 0 <= i2 < s.bmpHeight && 0 <= j2 < s.bmpWidth && i2 == i ==>
      o < DestIndex(x, y, atlasWidth, i2, j2, 0) || DestIndex(x, y, atlasWidth, i2, j2, 0) + 4 <= o
    ensures CopyRow(buf, s, x, y, atlasWidth, i, j)[o] == buf[o]
    decreases j
  {
    if j > 0 {
      RowUntouched(buf, s, x, y, atlasWidth, i, j - 1, o);
      assert o < DestIndex(x, y, atlasWidth, i, j - 1, 0) || DestIndex(x, y, atlasWidth, i, j - 1, 0) + 4 <= o;
      OffsetsInBounds(s, x, y, atlasWidth, |buf|, i, j - 1);
      PutPixelElsewhere(CopyRow(buf, s, x, y, atlasWidth, i, j - 1), DestIndex(x, y, atlasWidth, i, j - 1, 0),
                        s.bmp, SrcIndex(s, i, j - 1, 0), o);
    }
  }

  /** When the sprite fits in the row (`x + bmp_width <= atlas_width`),
      every pixel slot of it holds the corresponding source pixel. */
  lemma CopyImageWritten(buf: seq<Byte>, s: Sprite, x: nat, y: nat, atlasWidth: nat)
    requires SpriteFits(s) && DestFits(s, x, y, atlasWidth, |buf|)
    requires x + s.bmpWidth <= atlasWidth
    ensures forall i, j :: 0 <= i < s.bmpHeight && 0 <= j < s.bmpWidth ==>
      PixelCopied(CopyImageSpec(buf, s, x, y, atlasWidth), s, x, y, atlasWidth, i, j)
  {
    CopyRowsWritten(buf, s, x, y, atlasWidth, s.bmpHeight);
  }
}
