/** The glyph texture atlas: glyphs are packed left to right on one strip,
    separated by `ATLAS_GAP` pixels on every side, then blitted into one RGBA
    buffer; the finished atlas maps each glyph id to its UV rectangle. */
module TextAtlas {
  import opened Wrappers
  import opened AtlasImage

  /** The gap kept around every glyph so that sampling does not bleed. */
  const ATLAS_GAP: nat := 2

  type GlyphId = x: int | 0 <= x < 0x1_0000_0000

  datatype Glyph = Glyph(glyphId: GlyphId, sprite: Sprite)

  datatype AtlasError = AtlasIsEmpty

  function Max(a: nat, b: nat): nat { if a >= b then a else b }

  predicate Distinct<T(==)>(s: seq<T>)
  {
    forall i, j :: 0 <= i < j < |s| ==> s[i] != s[j]
  }

  // ---------------------------------------------------------------------
  // Packing, as values

  /** The fields of an `Atlas` that packing changes. */
  datatype AtlasState = AtlasState(glyphIds: seq<GlyphId>, sprites: seq<Sprite>, xPos: seq<nat>,
                                   width: nat, height: nat)

  /** Reference layout: the strip width once `sprites` are placed left to
      right, each followed by a gap, after a leading gap. */
  function Extent(sprites: seq<Sprite>): (r: nat)
    ensures r >= ATLAS_GAP
    ensures |sprites| > 0 ==> r >= ATLAS_GAP + sprites[|sprites| - 1].bmpWidth + ATLAS_GAP
  {
    if |sprites| == 0 then ATLAS_GAP
    else Extent(sprites[..|sprites| - 1]) + sprites[|sprites| - 1].bmpWidth + ATLAS_GAP
  }

  /** Reference layout: the strip height, a running maximum of the sprite
      heights with a gap above and below. */
  function PackedHeight(sprites: seq<Sprite>): (r: nat)
    ensures r >= 2 * ATLAS_GAP
    ensures forall k :: 0 <= k < |sprites| ==> ATLAS_GAP + sprites[k].bmpHeight + ATLAS_GAP <= r
  {
    if |sprites| == 0 then 2 * ATLAS_GAP
    else
      var prefix := sprites[..|sprites| - 1];
      assert forall k :: 0 <= k < |prefix| ==> prefix[k] == sprites[k];
      Max(ATLAS_GAP + sprites[|sprites| - 1].bmpHeight + ATLAS_GAP, PackedHeight(prefix))
  }

  /** The packing invariant: parallel vectors of equal length, no glyph id
      twice, sprite k placed at the strip width of sprites 0..k, and width
      and height those of the whole strip. */
  ghost predicate Packed(st: AtlasState)
  {
    && |st.glyphIds| == |st.sprites| == |st.xPos|
    && Distinct(st.glyphIds)
    && (forall k :: 0 <= k < |st.xPos| ==> st.xPos[k] == Extent(st.sprites[..k]))
    && st.width == Extent(st.sprites)
    && st.height == PackedHeight(st.sprites)
  }

  /** `Atlas::new`. */
  function NewState(): AtlasState
  {
    AtlasState([], [], [], ATLAS_GAP, 2 * ATLAS_GAP)
  }

  /** `push_glyph`: a glyph already present changes nothing; a new one is
      appended at x = width, the width grows by its width and a gap and the
      height becomes the running maximum. */
  function PushGlyphSpec(st: AtlasState, glyph: Glyph): AtlasState
  {
    if glyph.glyphId in st.glyphIds then st
    else
      var s := glyph.sprite;
      AtlasState(st.glyphIds + [glyph.glyphId], st.sprites + [s], st.xPos + [st.width],
                 st.width + s.bmpWidth + ATLAS_GAP,
                 Max(ATLAS_GAP + s.bmpHeight + ATLAS_GAP, st.height))
  }

  /** `push`: `push_glyph` on each glyph in order. */
  function PushSpec(st: AtlasState, glyphs: seq<Glyph>): AtlasState
  {
    if |glyphs| == 0 then st
    else PushGlyphSpec(PushSpec(st, glyphs[..|glyphs| - 1]), glyphs[|glyphs| - 1])
  }

  lemma NewStatePacked()
    ensures Packed(NewState())
  {
  }

  /** `push_glyph` keeps the packing invariant, so the length checks of
      `make` never fail. */
  lemma PushGlyphPreservesPacked(st: AtlasState, glyph: Glyph)
    requires Packed(st)
    ensures Packed(PushGlyphSpec(st, glyph))
  {
    if glyph.glyphId !in st.glyphIds {
      var st' := PushGlyphSpec(st, glyph);
      var n := |st.sprites|;
      assert st'.sprites[..n] == st.sprites;
      forall k | 0 <= k < |st'.xPos|
        ensures st'.xPos[k] == Extent(st'.sprites[..k])
      {
        if k < n {
          assert st'.sprites[..k] == st.sprites[..k];
        }
      }
      assert PackedHeight(st'.sprites) == st'.height by {
        assert st'.sprites[..|st'.sprites| - 1] == st.sprites;
      }
    }
  }

  /** What one `push_glyph` does to each field. */
  lemma PushGlyphEffect(st: AtlasState, glyph: Glyph)
    requires Packed(st)
    ensures var st' := PushGlyphSpec(st, glyph);
      && (glyph.glyphId in st.glyphIds ==> st' == st)
      && (glyph.glyphId !in st.glyphIds ==>
            && st'.glyphIds == st.glyphIds + [glyph.glyphId]
            && st'.sprites == st.sprites + [glyph.sprite]
            && st'.xPos == st.xPos + [st.width]
            && st'.width == st.width + glyph.sprite.bmpWidth + ATLAS_GAP
            && st'.height == Max(ATLAS_GAP + glyph.sprite.bmpHeight + ATLAS_GAP, st.height))
      && st'.height >= st.height
      && glyph.glyphId in st'.glyphIds
  {
  }

  lemma {:induction false} PushSpecPreservesPacked(st: AtlasState, glyphs: seq<Glyph>)
    requires Packed(st)
    ensures Packed(PushSpec(st, glyphs))
  {
    if |glyphs| > 0 {
      PushSpecPreservesPacked(st, glyphs[..|glyphs| - 1]);
      PushGlyphPreservesPacked(PushSpec(st, glyphs[..|glyphs| - 1]), glyphs[|glyphs| - 1]);
    }
  }

  /** Pushing only never forgets a glyph: old ids stay, every pushed id is present. */
  lemma {:induction false} PushSpecContains(st: AtlasState, glyphs: seq<Glyph>)
    ensures forall id :: id in st.glyphIds ==> id in PushSpec(st, glyphs).glyphIds
    ensures forall k :: 0 <= k < |glyphs| ==> glyphs[k].glyphId in PushSpec(st, glyphs).glyphIds
  {
    if |glyphs| > 0 {
      var n := |glyphs| - 1;
      PushSpecContains(st, glyphs[..n]);
      assert forall k :: 0 <= k < n ==> glyphs[..n][k] == glyphs[k];
    }
  }

  /** Pushing glyphs whose ids are all present changes nothing. */
  lemma {:induction false} PushSpecPresentNoop(st: AtlasState, glyphs: seq<Glyph>)
    requires forall k :: 0 <= k < |glyphs| ==> glyphs[k].glyphId in st.glyphIds
    ensures PushSpec(st, glyphs) == st
  {
    if |glyphs| > 0 {
      var n := |glyphs| - 1;
      assert forall k :: 0 <= k < n ==> glyphs[..n][k] == glyphs[k];
      PushSpecPresentNoop(st, glyphs[..n]);
    }
  }

  /** Pushing the same line of glyphs a second time changes nothing. */
  lemma PushSpecIdempotent(st: AtlasState, glyphs: seq<Glyph>)
    ensures PushSpec(PushSpec(st, glyphs), glyphs) == PushSpec(st, glyphs)
  {
    PushSpecContains(st, glyphs);
    PushSpecPresentNoop(PushSpec(st, glyphs), glyphs);
  }

  lemma {:induction false} ExtentGrows(sprites: seq<Sprite>, a: nat, b: nat)
    requires a < b <= |sprites|
    ensures Extent(sprites[..a]) + sprites[a].bmpWidth + ATLAS_GAP <= Extent(sprites[..b])
    decreases b
  {
    assert sprites[..b][..b - 1] == sprites[..b - 1];
    if a < b - 1 {
      ExtentGrows(sprites, a, b - 1);
    }
  }

  /** Sprites never overlap horizontally: sprite k spans
      [xPos[k], xPos[k] + bmp_width), followed by a gap before the next
      sprite and before the strip's right edge; every sprite starts after
      the leading gap. */
  lemma PackedHorizontal(st: AtlasState)
    requires Packed(st)
    ensures forall k :: 0 <= k < |st.sprites| ==>
      ATLAS_GAP <= st.xPos[k] && st.xPos[k] + st.sprites[k].bmpWidth + ATLAS_GAP <= st.width
    ensures forall k :: 0 <= k < |st.sprites| - 1 ==>
      st.xPos[k + 1] == st.xPos[k] + st.sprites[k].bmpWidth + ATLAS_GAP
    ensures forall k1, k2 :: 0 <= k1 < k2 < |st.sprites| ==>
      st.xPos[k1] + st.sprites[k1].bmpWidth + ATLAS_GAP <= st.xPos[k2]
  {
    forall k | 0 <= k < |st.sprites|
      ensures ATLAS_GAP <= st.xPos[k] && st.xPos[k] + st.sprites[k].bmpWidth + ATLAS_GAP <= st.width
    {
      PlacedInStrip(st, k);
    }
    forall k | 0 <= k < |st.sprites| - 1
      ensures st.xPos[k + 1] == st.xPos[k] + st.sprites[k].bmpWidth + ATLAS_GAP
    {
      PlacedNext(st, k);
    }
    forall k1, k2 | 0 <= k1 < k2 < |st.sprites|
      ensures st.xPos[k1] + st.sprites[k1].bmpWidth + ATLAS_GAP <= st.xPos[k2]
    {
      PlacedBefore(st, k1, k2);
    }
  }

  /** Sprite k + 1 starts one gap after sprite k ends. */
  lemma PlacedNext(st: AtlasState, k: nat)
    requires Packed(st) && k + 1 < |st.sprites|
    ensures st.xPos[k + 1] == st.xPos[k] + st.sprites[k].bmpWidth + ATLAS_GAP
  {
    assert st.xPos[k + 1] == Extent(st.sprites[..k + 1]);
    assert st.sprites[..k + 1][..k] == st.sprites[..k];
  }

  /** An earlier sprite ends at least one gap before a later one starts. */
  lemma PlacedBefore(st: AtlasState, k1: nat, k2: nat)
    requires Packed(st) && k1 < k2 < |st.sprites|
    ensures st.xPos[k1] + st.sprites[k1].bmpWidth + ATLAS_GAP <= st.xPos[k2]
  {
    ExtentGrows(st.sprites, k1, k2);
  }

  /** Sprite k starts after the leading gap and ends a gap before the width. */
  lemma PlacedInStrip(st: AtlasState, k: nat)
    requires Packed(st) && k < |st.sprites|
    ensures ATLAS_GAP <= st.xPos[k] && st.xPos[k] + st.sprites[k].bmpWidth + ATLAS_GAP <= st.width
  {
    assert st.xPos[k] == Extent(st.sprites[..k]);
    ExtentGrows(st.sprites, k, |st.sprites|);
    assert st.sprites[..|st.sprites|] == st.sprites;
  }

  /** Every sprite fits vertically at y = ATLAS_GAP with a gap below it. */
  lemma PackedVertical(st: AtlasState)
    requires Packed(st)
    ensures st.height >= 2 * ATLAS_GAP
    ensures forall k :: 0 <= k < |st.sprites| ==> ATLAS_GAP + st.sprites[k].bmpHeight + ATLAS_GAP <= st.height
  {
  }

  // ---------------------------------------------------------------------
  // The atlas object

  /** `Atlas`: the glyphs pushed so far, their sprites and x positions, and
      the current strip size. The render API handle is not modelled. */
  class Atlas {
    var glyphIds: seq<GlyphId>
    var sprites: seq<Sprite>
    var xPos: seq<nat>
    var width: nat
    var height: nat

    function State(): AtlasState
      reads this
    {
      AtlasState(glyphIds, sprites, xPos, width, height)
    }

    ghost predicate Valid()
      reads this
    {
      Packed(State())
    }

    /** `Atlas::new`: no glyphs, width one gap, height two gaps. */
    constructor ()
      ensures Valid()
      ensures glyphIds == [] && sprites == [] && xPos == []
      ensures width == ATLAS_GAP && height == 2 * ATLAS_GAP
    {
      glyphIds, sprites, xPos := [], [], [];
      width := ATLAS_GAP;
      height := 2 * ATLAS_GAP;
    }

    /** `push_glyph`. */
    method PushGlyph(glyph: Glyph)
      requires Valid()
      modifies this
      ensures Valid()
      ensures State() == PushGlyphSpec(old(State()), glyph)
    {
      if glyph.glyphId in glyphIds {
        return;
      }
      PushGlyphPreservesPacked(State(), glyph);

      glyphIds := glyphIds + [glyph.glyphId];
      sprites := sprites + [glyph.sprite];

      var sprite := glyph.sprite;
      xPos := xPos + [width];

      var h := ATLAS_GAP + sprite.bmpHeight + ATLAS_GAP;
      height := Max(h, height);

      width := width + sprite.bmpWidth + ATLAS_GAP;
    }

    /** `push`: push a line of shaped glyphs. */
    method Push(glyphs: seq<Glyph>)
      requires Valid()
      modifies this
      ensures Valid()
      ensures State() == PushSpec(old(State()), glyphs)
    {
      for k := 0 to |glyphs|
        invariant Valid()
        invariant State() == PushSpec(old(State()), glyphs[..k])
      {
        assert glyphs[..k + 1][..k] == glyphs[..k];
        PushGlyph(glyphs[k]);
      }
      assert glyphs[..|glyphs|] == glyphs;
    }

    /** `render`: a zeroed buffer of 4 * width * height bytes with one white
        pixel at the origin, then every sprite copied to (xPos[k], ATLAS_GAP). */
    method Render() returns (atlas: array<Byte>)
      requires Valid()
      requires forall k :: 0 <= k < |sprites| ==> SpriteFits(sprites[k])
      ensures fresh(atlas)
      ensures atlas[..] == Rendered(State())
    {
      BufferArithmetic(width, height);
      atlas := new Byte[4 * width * height](_ => 0);
      atlas[0] := 255;
      atlas[1] := 255;
      atlas[2] := 255;
      atlas[3] := 255;
      assert atlas[..] == Blank(4 * width * height);

      var y := ATLAS_GAP;
      for k := 0 to |sprites|
        invariant atlas[..] == RenderPrefix(State(), k)
      {
        PlacementFits(State(), k);
        CopyImage(sprites[k], xPos[k], y, atlas, width);
      }
    }

    /** `make`: an atlas without glyphs is refused; otherwise the rendered
        buffer (standing for the uploaded texture), the glyph ids and one UV
        rectangle per sprite. `uv` stands for the f32 rectangle formula of
        `compute_uvs`, given a sprite's x position, the sprite, and the atlas
        width and height. */
    method Make<U>(uv: (nat, Sprite, nat, nat) -> U) returns (r: Result<RenderedAtlas<U>, AtlasError>)
      requires Valid()
      requires forall k :: 0 <= k < |sprites| ==> SpriteFits(sprites[k])
      ensures glyphIds == [] <==> r == Failure(AtlasIsEmpty)
      ensures r.Success? ==>
        && r.value.glyphIds == glyphIds
        && r.value.uvRects == ComputeUvs(State(), uv)
        && r.value.texture == Rendered(State())
        && r.value.textureWidth == width && r.value.textureHeight == height
    {
      if |glyphIds| == 0 {
        return Failure(AtlasIsEmpty);
      }
      assert |glyphIds| == |sprites|;
      assert |glyphIds| == |xPos|;

      var atlas := Render();
      var uvRects := ComputeUvs(State(), uv);
      return Success(RenderedAtlas(glyphIds, uvRects, atlas[..], width, height));
    }
  }

  /** `make_texture_atlas`: a new atlas, one `push` of the glyphs, then `make`. */
  method MakeTextureAtlas<U>(glyphs: seq<Glyph>, uv: (nat, Sprite, nat, nat) -> U)
    returns (r: Result<RenderedAtlas<U>, AtlasError>)
    requires forall k :: 0 <= k < |glyphs| ==> SpriteFits(glyphs[k].sprite)
    ensures glyphs == [] <==> r == Failure(AtlasIsEmpty)
    ensures r.Success? ==>
      var st := PushSpec(NewState(), glyphs);
      && Packed(st)
      && (forall k :: 0 <= k < |st.sprites| ==> SpriteFits(st.sprites[k]))
      && r.value.glyphIds == st.glyphIds
      && r.value.uvRects == ComputeUvs(st, uv)
      && r.value.texture == Rendered(st)
  {
    var atlas := new Atlas();
    atlas.Push(glyphs);
    PushSpecSpritesFit(NewState(), glyphs);
    PushSpecContains(NewState(), glyphs);
    r := atlas.Make(uv);
  }

  /** Pushing glyphs whose bitmaps fit their size keeps every sprite of the
      atlas fitting its size. */
  lemma {:induction false} PushSpecSpritesFit(st: AtlasState, glyphs: seq<Glyph>)
    requires forall k :: 0 <= k < |st.sprites| ==> SpriteFits(st.sprites[k])
    requires forall k :: 0 <= k < |glyphs| ==> SpriteFits(glyphs[k].sprite)
    ensures forall k :: 0 <= k < |PushSpec(st, glyphs).sprites| ==> SpriteFits(PushSpec(st, glyphs).sprites[k])
  {
    if |glyphs| > 0 {
      var n := |glyphs| - 1;
      assert forall k :: 0 <= k < n ==> glyphs[..n][k] == glyphs[k];
      PushSpecSpritesFit(st, glyphs[..n]);
    }
  }

  // ---------------------------------------------------------------------
  // Rendering, as values

  /** The freshly allocated buffer: zeroes, except one white pixel at the origin. */
  function Blank(len: nat): seq<Byte>
  {
    seq(len, o => if o < 4 then 255 else 0)
  }

  /** A sprite of w x h pixels at (x, ATLAS_GAP) with a gap right of it and
      below it fits in a W x H RGBA buffer. */
  lemma PlacementArithmetic(x: nat, w: nat, h: nat, width: nat, height: nat)
    requires 0 < w && 0 < h
    requires x + w + ATLAS_GAP <= width && ATLAS_GAP + h + ATLAS_GAP <= height
    ensures 4 * ((ATLAS_GAP + h - 1) * width + x + w) <= 4 * width * height
  {
    var rows := ATLAS_GAP + h - 1;
    assert (rows + 1) * width == rows * width + width;
    MulLeq(rows + 1, height, width);
    assert height * width == width * height;
    assert 4 * width * height == 4 * (width * height);
  }

  lemma BufferArithmetic(width: nat, height: nat)
    requires ATLAS_GAP <= width && 2 * ATLAS_GAP <= height
    ensures 32 <= 4 * width * height
  {
    MulLeq(2, width, height);
    assert 4 * width * height == 4 * (width * height);
  }

  lemma PlacementsFit(st: AtlasState)
    requires Packed(st)
    ensures 32 <= 4 * st.width * st.height
    ensures forall k :: 0 <= k < |st.sprites| ==>
      DestFits(st.sprites[k], st.xPos[k], ATLAS_GAP, st.width, 4 * st.width * st.height)
  {
    BufferArithmetic(st.width, st.height);
    forall k | 0 <= k < |st.sprites|
      ensures DestFits(st.sprites[k], st.xPos[k], ATLAS_GAP, st.width, 4 * st.width * st.height)
    {
      PlacementFits(st, k);
    }
  }

  /** Sprite k, placed at (xPos[k], ATLAS_GAP), fits in the buffer. */
  lemma PlacementFits(st: AtlasState, k: nat)
    requires Packed(st) && k < |st.sprites|
    ensures DestFits(st.sprites[k], st.xPos[k], ATLAS_GAP, st.width, 4 * st.width * st.height)
  {
    var s := st.sprites[k];
    if s.bmpWidth > 0 && s.bmpHeight > 0 {
      PlacedInStrip(st, k);
      assert ATLAS_GAP + s.bmpHeight + ATLAS_GAP <= st.height;
      PlacementArithmetic(st.xPos[k], s.bmpWidth, s.bmpHeight, st.width, st.height);
    }
  }

  /** The buffer once sprites 0..k have been copied. */
  ghost function RenderPrefix(st: AtlasState, k: nat): (r: seq<Byte>)
    requires Packed(st) && k <= |st.sprites|
    requires forall k :: 0 <= k < |st.sprites| ==> SpriteFits(st.sprites[k])
    ensures |r| == 4 * st.width * st.height
  {
    if k == 0 then Blank(4 * st.width * st.height)
    else
      PlacementFits(st, k - 1);
      CopyImageSpec(RenderPrefix(st, k - 1), st.sprites[k - 1], st.xPos[k - 1], ATLAS_GAP, st.width)
  }

  /** The buffer `render` returns. */
  ghost function Rendered(st: AtlasState): seq<Byte>
    requires Packed(st)
    requires forall k :: 0 <= k < |st.sprites| ==> SpriteFits(st.sprites[k])
  {
    RenderPrefix(st, |st.sprites|)
  }

  lemma {:induction false} RenderPrefixUntouched(st: AtlasState, k: nat, m: nat, o: nat)
    requires Packed(st) && k <= m <= |st.sprites|
    requires forall k :: 0 <= k < |st.sprites| ==> SpriteFits(st.sprites[k])
    requires o < 4 * st.width * st.height
    requires forall k' :: k <= k' < m ==> OutsideSprite(st.sprites[k'], st.xPos[k'], ATLAS_GAP, st.width, o)
    ensures RenderPrefix(st, m)[o] == RenderPrefix(st, k)[o]
    decreases m
  {
    if k < m {
      RenderPrefixUntouched(st, k, m - 1, o);
      RenderStepUntouched(st, m, o);
    }
  }

  /** Copying sprite m - 1 leaves a byte outside its pixel slots unchanged. */
  lemma RenderStepUntouched(st: AtlasState, m: nat, o: nat)
    requires Packed(st) && 0 < m <= |st.sprites|
    requires forall k :: 0 <= k < |st.sprites| ==> SpriteFits(st.sprites[k])
    requires o < 4 * st.width * st.height
    requires OutsideSprite(st.sprites[m - 1], st.xPos[m - 1], ATLAS_GAP, st.width, o)
    ensures RenderPrefix(st, m)[o] == RenderPrefix(st, m - 1)[o]
  {
    PlacementFits(st, m - 1);
    var buf, s, x := RenderPrefix(st, m - 1), st.sprites[m - 1], st.xPos[m - 1];
    assert |buf| == 4 * st.width * st.height;
    assert SpriteFits(s) && DestFits(s, x, ATLAS_GAP, st.width, |buf|);
    CopyImageUntouched(buf, s, x, ATLAS_GAP, st.width, o);
  }

  /** A byte outside every sprite's pixel slots keeps its initial value:
      the white origin pixel or zero. */
  lemma RenderedBackground(st: AtlasState, o: nat)
    requires Packed(st)
    requires forall k :: 0 <= k < |st.sprites| ==> SpriteFits(st.sprites[k])
    requires o < 4 * st.width * st.height
    requires forall k :: 0 <= k < |st.sprites| ==> OutsideSprite(st.sprites[k], st.xPos[k], ATLAS_GAP, st.width, o)
    ensures Rendered(st)[o] == if o < 4 then 255 else 0
  {
    RenderPrefixUntouched(st, 0, |st.sprites|, o);
  }

  /** The debug pixel at the origin stays white: every sprite starts on
      row ATLAS_GAP. */
  lemma RenderedCorner(st: AtlasState)
    requires Packed(st)
    requires forall k :: 0 <= k < |st.sprites| ==> SpriteFits(st.sprites[k])
    ensures |Rendered(st)| >= 4
    ensures Rendered(st)[0] == 255 && Rendered(st)[1] == 255 && Rendered(st)[2] == 255 && Rendered(st)[3] == 255
  {
    PlacementsFit(st);
    forall o | 0 <= o < 4
      ensures Rendered(st)[o] == 255
    {
      forall k | 0 <= k < |st.sprites|
        ensures OutsideSprite(st.sprites[k], st.xPos[k], ATLAS_GAP, st.width, o)
      {
        forall i, j | 0 <= i < st.sprites[k].bmpHeight && 0 <= j < st.sprites[k].bmpWidth
          ensures o < DestIndex(st.xPos[k], ATLAS_GAP, st.width, i, j, 0)
        {
          MulLeq(ATLAS_GAP, ATLAS_GAP + i, st.width);
        }
      }
      RenderedBackground(st, o);
    }
  }

  /** A pixel slot of sprite k lies outside every pixel slot of a later sprite. */
  lemma LaterSpriteDisjoint(st: AtlasState, k: nat, k': nat, i: nat, j: nat, c: nat)
    requires Packed(st) && k < k' < |st.sprites|
    requires i < st.sprites[k].bmpHeight && j < st.sprites[k].bmpWidth && c < 4
    ensures OutsideSprite(st.sprites[k'], st.xPos[k'], ATLAS_GAP, st.width,
                          DestIndex(st.xPos[k], ATLAS_GAP, st.width, i, j, c))
  {
    PlacedBefore(st, k, k');
    PlacedInStrip(st, k');
    var x, x', w := st.xPos[k], st.xPos[k'], st.width;
    assert x + st.sprites[k].bmpWidth + ATLAS_GAP <= x';
    assert x' + st.sprites[k'].bmpWidth + ATLAS_GAP <= w;
    var o := DestIndex(x, ATLAS_GAP, w, i, j, c);
    forall i', j' | 0 <= i' < st.sprites[k'].bmpHeight && 0 <= j' < st.sprites[k'].bmpWidth
      ensures o < DestIndex(x', ATLAS_GAP, w, i', j', 0) || DestIndex(x', ATLAS_GAP, w, i', j', 0) + 4 <= o
    {
      if i' < i {
        PixelBefore(x', x, ATLAS_GAP, w, i', j', i, j);
      } else {
        PixelBefore(x, x', ATLAS_GAP, w, i, j, i', j');
      }
    }
  }

  /** Every pixel of every sprite appears in the rendered buffer at its
      place: row ATLAS_GAP + i, column xPos[k] + j. Later sprites never
      overwrite earlier ones. */
  lemma RenderedSprite(st: AtlasState, k: nat)
    requires Packed(st) && k < |st.sprites|
    requires forall k :: 0 <= k < |st.sprites| ==> SpriteFits(st.sprites[k])
    ensures forall i, j :: 0 <= i < st.sprites[k].bmpHeight && 0 <= j < st.sprites[k].bmpWidth ==>
      PixelCopied(Rendered(st), st.sprites[k], st.xPos[k], ATLAS_GAP, st.width, i, j)
  {
    PlacementFits(st, k);
    PlacedInStrip(st, k);
    var s, x, w := st.sprites[k], st.xPos[k], st.width;
    assert x + s.bmpWidth <= w;
    CopyImageWritten(RenderPrefix(st, k), s, x, ATLAS_GAP, w);
    assert RenderPrefix(st, k + 1) == CopyImageSpec(RenderPrefix(st, k), s, x, ATLAS_GAP, w);
    forall i, j | 0 <= i < s.bmpHeight && 0 <= j < s.bmpWidth
      ensures PixelCopied(Rendered(st), s, x, ATLAS_GAP, w, i, j)
    {
      assert PixelCopied(RenderPrefix(st, k + 1), s, x, ATLAS_GAP, w, i, j);
      forall c | 0 <= c < 4
        ensures Rendered(st)[DestIndex(x, ATLAS_GAP, w, i, j, c)] == RenderPrefix(st, k + 1)[DestIndex(x, ATLAS_GAP, w, i, j, c)]
      {
        var o := DestIndex(x, ATLAS_GAP, w, i, j, c);
        forall k' | k + 1 <= k' < |st.sprites|
          ensures OutsideSprite(st.sprites[k'], st.xPos[k'], ATLAS_GAP, w, o)
        {
          LaterSpriteDisjoint(st, k, k', i, j, c);
        }
        RenderPrefixUntouched(st, k + 1, |st.sprites|, o);
      }
    }
  }

  /** One abstract UV rectangle per sprite, in glyph order. */
  function ComputeUvs<U>(st: AtlasState, uv: (nat, Sprite, nat, nat) -> U): seq<U>
    requires |st.sprites| == |st.xPos|
  {
    seq(|st.sprites|, k requires 0 <= k < |st.sprites| => uv(st.xPos[k], st.sprites[k], st.width, st.height))
  }

  // ---------------------------------------------------------------------
  // The finished atlas

  /** `RenderedAtlas`: glyph ids with their UV rectangles; the texture id is
      replaced by the pixel buffer that was uploaded and its size. */
  datatype RenderedAtlas<U> = RenderedAtlas(glyphIds: seq<GlyphId>, uvRects: seq<U>, texture: seq<Byte>,
                                            textureWidth: nat, textureHeight: nat)
  {
    /** `fetch_uv`: the UV rectangle of the first entry with this glyph id. */
    method FetchUv(glyphId: GlyphId) returns (r: Option<U>)
      requires |glyphIds| == |uvRects|
      ensures match IndexOf(glyphIds, glyphId)
        case None => r == None
        case Some(i) => r == Some(uvRects[i])
    {
      var glyphsLen := |glyphIds|;
      for i := 0 to glyphsLen
        invariant forall j :: 0 <= j < i ==> glyphIds[j] != glyphId
      {
        if glyphIds[i] == glyphId {
          return Some(uvRects[i]);
        }
      }
      return None;
    }
  }

  /** The first position of `x` in `s`, if any. */
  function IndexOf<T(==)>(s: seq<T>, x: T): (r: Option<nat>)
    ensures r.None? <==> x !in s
    ensures r.Some? ==> r.value < |s| && s[r.value] == x && forall j :: 0 <= j < r.value ==> s[j] != x
  {
    if |s| == 0 then None
    else if s[0] == x then Some(0)
    else
      match IndexOf(s[1..], x)
      case None => None
      case Some(i) => Some(i + 1)
  }

  /** In a duplicate-free sequence the first position of s[k] is k. */
  lemma IndexOfDistinct<T>(s: seq<T>, k: nat)
    requires Distinct(s) && k < |s|
    ensures IndexOf(s, s[k]) == Some(k)
  {
  }

  /** After `make`, every pushed glyph id finds the UV rectangle computed
      for its own sprite. */
  lemma FetchUvAfterMake<U>(st: AtlasState, uv: (nat, Sprite, nat, nat) -> U, k: nat)
    requires Packed(st) && k < |st.glyphIds|
    ensures IndexOf(st.glyphIds, st.glyphIds[k]) == Some(k)
    ensures ComputeUvs(st, uv)[k] == uv(st.xPos[k], st.sprites[k], st.width, st.height)
  {
    IndexOfDistinct(st.glyphIds, k);
  }
}
