/** The bitmap tables of `src/games/trex.rs`. Bit i of a row is column i, so the images are
    the mirror of the binary literals as they are laid out in the source text. */
module Skins {

  import opened Bits
  import opened Sprites

  /** `TREX_RUNNING[0]`. */
  const TRexRunning0: Image := Image([
    0x1F80, 0x3CC0, 0x3CC0, 0x3FC0, 0x3C0, 0xFC0, 0x1E1, 0x7F3,
    0x5FF, 0x1FF, 0x1FE, 0xFC, 0x78, 0xD8, 0x8, 0x18
  ], 14, Red)

  /** `TREX_RUNNING[1]`. */
  const TRexRunning1: Image := Image([
    0x1F80, 0x3CC0, 0x3CC0, 0x3FC0, 0x3C0, 0xFC0, 0x1E1, 0x7F3,
    0x5FF, 0x1FF, 0x1FE, 0xFC, 0x78, 0x48, 0x58, 0xC0
  ], 14, Red)

  /** `TREX_RUNNING`. */
  const TRexRunning: Animation := Animation([TRexRunning0, TRexRunning1])

  /** `TREX_CROUCHING[0]`. */
  const TRexCrouching0: Image := Image([
    0x1F800, 0x3CDE1, 0x3FFF3, 0x3FFFF, 0x3FFF, 0xF9FE, 0x3FC, 0x2D8,
    0x4C, 0xC4, 0xC
  ], 18, Red)

  /** `TREX_CROUCHING[1]`. */
  const TRexCrouching1: Image := Image([
    0x1F800, 0x3CDE1, 0x3FFF3, 0x3FFFF, 0x3FFF, 0xF9FE, 0x3FC, 0x2C8,
    0x64, 0x2C, 0x60
  ], 18, Red)

  /** `TREX_CROUCHING`. */
  const TRexCrouching: Animation := Animation([TRexCrouching0, TRexCrouching1])

  /** `BIRD[0]`. */
  const Bird0: Image := Image([
    0xE0, 0xF0, 0x6F8, 0xEC8, 0x7FCF, 0x1FFFE, 0x1FF8, 0x7FF8,
    0xFF0
  ], 17, LightBlue)

  /** `BIRD[1]`. */
  const Bird1: Image := Image([
    0xE0, 0xF0, 0xF8, 0xC8, 0x7FCF, 0x1FFFE, 0x1FF8, 0x7FF8,
    0xFF0, 0x0
  ], 17, LightBlue)

  /** `BIRD[2]`. */
  const Bird2: Image := Image([
    0xE0, 0xF0, 0xF8, 0xC8, 0x7FCF, 0x1FFFE, 0x1FF8, 0x7FF8,
    0xFF0, 0xE00, 0x600
  ], 17, LightBlue)

  /** `BIRD[3]`. */
  const Bird3: Image := Image([
    0xE0, 0xF0, 0xF8, 0xC8, 0x7FCF, 0x1FFFE, 0x1FF8, 0x7FF8,
    0xFF0, 0x0
  ], 17, LightBlue)

  /** `BIRD`. */
  const Bird: Animation := Animation([Bird0, Bird1, Bird2, Bird3])

  /** `CACTUSES[0]`. */
  const Cactuses0: Image := Image([
    0x20, 0x70, 0x270, 0x672, 0x673, 0x673, 0x673, 0x673,
    0x7FF, 0x3FE, 0x1FC, 0x70, 0x70, 0x70, 0x70
  ], 11, Green)

  /** `CACTUSES[1]`. */
  const Cactuses1: Image := Image([
    0x20, 0x70, 0x270, 0x672, 0x673, 0x673, 0x673, 0x673,
    0x7FF, 0x3FE, 0x1FC, 0x70, 0x70, 0x70, 0x70
  ], 11, Green)

  /** `CACTUSES[2]`. */
  const Cactuses2: Image := Image([
    0x20, 0x70, 0x270, 0x672, 0x673, 0x673, 0x673, 0x673,
    0x7FF, 0x3FE, 0x1FC, 0x70, 0x70, 0x70, 0x70
  ], 11, Green)

  /** `CACTUSES`. */
  const Cactuses: seq<Image> := [Cactuses0, Cactuses1, Cactuses2]

  /** Every image of the table is at most 32 columns wide and no row sets a bit at or beyond
      the declared width. */
  predicate AllFit(images: seq<Image>) {
    forall img | img in images :: img.Valid() && img.RowsFit()
  }

  lemma TRexRunningFits()
    ensures |TRexRunning.images| == 2 && AllFit(TRexRunning.images)
  {
    Pow2Table();
  }

  lemma TRexCrouchingFits()
    ensures |TRexCrouching.images| == 2 && AllFit(TRexCrouching.images)
  {
    Pow2Table();
  }

  lemma BirdFits()
    ensures |Bird.images| == 4 && AllFit(Bird.images)
  {
    Pow2Table();
    assert Bird0.RowsFit() && Bird1.RowsFit() && Bird2.RowsFit() && Bird3.RowsFit();
  }

  lemma CactusesFit()
    ensures |Cactuses| == 3 && AllFit(Cactuses)
  {
    Pow2Table();
  }

  /** The sprite tables are non-empty and fit, so `collide` on them is exact pixel overlap and
      `image(frame)` never divides by zero. */
  lemma SkinsFit()
    ensures |TRexRunning.images| == 2 && |TRexCrouching.images| == 2 && |Bird.images| == 4 && |Cactuses| == 3
    ensures AllFit(TRexRunning.images) && AllFit(TRexCrouching.images) && AllFit(Bird.images) && AllFit(Cactuses)
  {
    TRexRunningFits();
    TRexCrouchingFits();
    BirdFits();
    CactusesFit();
  }
}
