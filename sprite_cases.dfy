/** The sprite scenarios of the unit tests in `src/image.rs`, stated on the model. */
module SpriteCases {

  import opened Wrappers
  import opened Geometry
  import opened Sprites

  /** The one-row sprite `a` of `sprite_collision`, a 4-wide bar at the origin. */
  function Bar(): Sprite {
    Sprite(Image([0xF], 4, Red), Pos(0, 0), Pos(Min, Min))
  }

  /** The two-row sprite `b` of `sprite_collision` at the given position and origin. */
  function Hook(x: int, y: int, origin: Pos<Origin>): Sprite {
    Sprite(Image([0xF, 0x1], 4, Red), Pos(x, y), origin)
  }

  /** `bounding_box`: Min origins put the box after the anchor, Max origins before it. */
  lemma BoundingBoxCases()
    ensures Sprite(Image([0xF, 0x8], 4, Red), Pos(3, 1), Pos(Min, Min)).BoundingBox()
            == Geometry.Rect(Line(3, 7), Line(1, 3))
    ensures Sprite(Image([0xF, 0x8], 4, Red), Pos(3, 1), Pos(Max, Max)).BoundingBox()
            == Geometry.Rect(Line(0, 4), Line(0, 2))
  {
  }

  /** `sprite_collision`: touching in one column collides, in both argument orders. */
  lemma CollisionTouching()
    ensures Bar().Collides(Hook(3, 0, Pos(Min, Min))) && Hook(3, 0, Pos(Min, Min)).Collides(Bar())
  {
    assert Bits.Shr(0xF, 3) == 1;
    assert Bar().RowsMeet(Hook(3, 0, Pos(Min, Min)), 0);
    CollidesSymmetric(Bar(), Hook(3, 0, Pos(Min, Min)));
  }

  /** `sprite_collision`: side by side, the boxes do not intersect. */
  lemma CollisionSideBySide()
    ensures !Bar().Collides(Hook(4, 0, Pos(Min, Min)))
  {
  }

  /** `sprite_collision`: one row lower, the single pixel of the second row lies on the bar. */
  lemma CollisionSecondRow()
    ensures Bar().Collides(Hook(0, -1, Pos(Min, Min))) && Hook(0, -1, Pos(Min, Min)).Collides(Bar())
  {
    assert Bar().RowsMeet(Hook(0, -1, Pos(Min, Min)), 0);
    CollidesSymmetric(Bar(), Hook(0, -1, Pos(Min, Min)));
  }

  /** `sprite_collision`: one column further left, that pixel falls outside the bar. */
  lemma CollisionSecondRowMissed()
    ensures !Bar().Collides(Hook(-1, -1, Pos(Min, Min))) && !Hook(-1, -1, Pos(Min, Min)).Collides(Bar())
  {
    var a, b := Bar(), Hook(-1, -1, Pos(Min, Min));
    assert a.BoundingBox().Intersect(b.BoundingBox()) == Some(Geometry.Rect(Line(0, 3), Line(0, 1)));
    assert Bits.Shr(1, 1) == 0 && Bits.And(0xF, 0) == 0;
    forall y | Line(0, 1).Contains(y) ensures !a.RowsMeet(b, y) {
      assert y == 0;
    }
    CollidesSymmetric(a, b);
  }

  /** `sprite_collision`, origin cases: with both origins Max at (-1, 0) the boxes are side by
      side; with a Max y origin at (4, -1) the boxes do not meet either. */
  lemma CollisionByOrigin()
    ensures !Bar().Collides(Hook(-1, 0, Pos(Max, Max)))
    ensures !Bar().Collides(Hook(4, -1, Pos(Min, Max)))
  {
  }

  /** The case at (3, -1) with a Max y origin: the box of `b` is rows [-2, 0), which does not meet
      row 0 of `a`, so `collide` returns false although the test expects a hit. */
  lemma CollisionAsWrittenMissesMaxY()
    ensures Hook(3, -1, Pos(Min, Max)).BoundingBox().y == Line(-2, 0)
    ensures !Bar().Collides(Hook(3, -1, Pos(Min, Max)))
  {
  }

  /** With the anchor one row higher, at (3, 0), the box of `b` is rows [-1, 1) and its
      single-pixel row overlaps the last column of the bar, which is the hit the test expects. */
  lemma CollisionWithMaxYPlacedOnBar()
    ensures Hook(3, 0, Pos(Min, Max)).BoundingBox().y == Line(-1, 1)
    ensures Bar().Collides(Hook(3, 0, Pos(Min, Max)))
    ensures Bar().Overlaps(Hook(3, 0, Pos(Min, Max)))
  {
    PlacedOnBarBoxes();
    PlacedOnBarMeets();
    PlacedOnBarOverlaps();
  }

  /** The boxes of that case and their intersection, the last column of row 0. */
  lemma PlacedOnBarBoxes()
    ensures Bar().BoundingBox() == Geometry.Rect(Line(0, 4), Line(0, 1))
    ensures Hook(3, 0, Pos(Min, Max)).BoundingBox() == Geometry.Rect(Line(3, 7), Line(-1, 1))
    ensures Bar().BoundingBox().Intersect(Hook(3, 0, Pos(Min, Max)).BoundingBox())
            == Some(Geometry.Rect(Line(3, 4), Line(0, 1)))
  {
  }

  /** Row 0 of the intersection: the bar shifted by 3 meets the single pixel of `b`. */
  lemma PlacedOnBarMeets()
    ensures Bar().Collides(Hook(3, 0, Pos(Min, Max)))
  {
    var a, b := Bar(), Hook(3, 0, Pos(Min, Max));
    PlacedOnBarBoxes();
    assert Bits.Shr(0xF, 3) == 1 && Bits.And(1, 1) == 1;
    assert a.RowsMeet(b, 0);
  }

  /** The point (3, 0) is opaque in both sprites. */
  lemma PlacedOnBarOverlaps()
    ensures Bar().Overlaps(Hook(3, 0, Pos(Min, Max)))
  {
    var a, b := Bar(), Hook(3, 0, Pos(Min, Max));
    PlacedOnBarBoxes();
    assert Bits.Shr(0xF, 3) == 1 && Bits.Shr(1, 0) == 1;
    assert a.Opaque(3, 0) && b.Opaque(3, 0);
  }
}
