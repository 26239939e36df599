/** Integer geometry of `src/math.rs`: positions, sizes, half-open intervals and rectangles.
    The source is generic over the number type and is used with `i32` and `u16`; here every
    coordinate is an `int`, and `u16` marks the places where the source uses the unsigned type. */
module Geometry {

  import opened Wrappers

  type u16 = x: int | 0 <= x < 0x1_0000

  function Max(a: int, b: int): int { if a >= b then a else b }

  function Min(a: int, b: int): int { if a <= b then a else b }

  datatype Pos<T> = Pos(x: T, y: T)

  datatype Size<T> = Size(width: T, height: T)

  /** The `Size` constructor, callable from inside the members named `Size`. */
  function SizeOf(width: int, height: int): Size<int> { Size(width, height) }

  /** `Pos + Pos`, axis by axis. */
  function Add(p: Pos<int>, q: Pos<int>): (r: Pos<int>)
    ensures r.x - q.x == p.x && r.y - q.y == p.y
  {
    Pos(p.x + q.x, p.y + q.y)
  }

  /** `Pos - Pos`, axis by axis; it undoes `Add`. */
  function Sub(p: Pos<int>, q: Pos<int>): (r: Pos<int>)
    ensures Add(r, q) == p
  {
    Pos(p.x - q.x, p.y - q.y)
  }

  lemma SubUndoesAdd(p: Pos<int>, q: Pos<int>)
    ensures Sub(Add(p, q), q) == p
  {
  }

  /** The half-open interval [start, end). */
  datatype Line = Line(start: int, end: int) {

    predicate Contains(k: int) {
      start <= k < end
    }

    /** `Line::new_checked`: None exactly when the interval would be empty. */
    static function NewChecked(start: int, end: int): (r: Option<Line>)
      ensures r.None? <==> start >= end
      ensures r.Some? ==> r.value.start == start && r.value.end == end
    {
      if start >= end then None else Some(Line(start, end))
    }

    /** `Line::range`: the values `start..end` in increasing order (empty when start >= end). */
    function Range(): (r: seq<int>)
      ensures |r| == Max(end - start, 0)
      ensures forall i :: 0 <= i < |r| ==> r[i] == start + i
      ensures forall k :: k in r <==> Contains(k)
    {
      var r := seq(Max(end - start, 0), i => start + i);
      assert forall k :: Contains(k) ==> r[k - start] == k;
      r
    }

    /** `Line::intersect`: the common part, None when it is empty. */
    function Intersect(other: Line): (r: Option<Line>)
      ensures r.None? <==> Max(start, other.start) >= Min(end, other.end)
      ensures r.Some? ==> r.value.start == Max(start, other.start) && r.value.end == Min(end, other.end)
      ensures r.Some? ==> start <= r.value.start && r.value.end <= end
      ensures r.Some? ==> other.start <= r.value.start && r.value.end <= other.end
      ensures forall k :: (r.Some? && r.value.Contains(k)) <==> (Contains(k) && other.Contains(k))
    {
      NewChecked(Max(start, other.start), Min(end, other.end))
    }

    /** `Line::size`: positive exactly for the lines that `new_checked` accepts. */
    function Size(): (n: int)
      ensures n > 0 <==> NewChecked(start, end).Some?
    {
      end - start
    }

    /** `Line::translate`: both ends move by the same amount. */
    function Translate(amount: int): (r: Line)
      ensures r.Size() == Size()
      ensures r.start == start + amount
      ensures forall k :: r.Contains(k + amount) <==> Contains(k)
    {
      Line(start + amount, end + amount)
    }
  }

  lemma IntersectCommutes(a: Line, b: Line)
    ensures a.Intersect(b) == b.Intersect(a)
  {
  }

  datatype Rect = Rect(x: Line, y: Line) {

    /** `Rect::intersect`: None when either axis has no overlap. */
    function Intersect(other: Rect): (r: Option<Rect>)
      ensures r.None? <==> x.Intersect(other.x).None? || y.Intersect(other.y).None?
      ensures r.Some? ==> r.value == Rect(x.Intersect(other.x).value, y.Intersect(other.y).value)
    {
      match (x.Intersect(other.x), y.Intersect(other.y))
      case (Some(x'), Some(y')) => Some(Rect(x', y'))
      case _ => None
    }

    /** `Rect::size`. */
    function Size(): (r: Size<int>)
      ensures r.width == x.end - x.start && r.height == y.end - y.start
    {
      SizeOf(x.Size(), y.Size())
    }
  }
}
