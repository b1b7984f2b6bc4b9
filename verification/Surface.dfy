/** Rectangles of pixels. */
module Surface {
  import opened Machine
  import opened Options

  type i32 = x: int | -0x8000_0000 <= x < 0x8000_0000

  datatype Rect = Rect(x: i32, y: i32, width: u32, height: u32)

  function Right(r: Rect): int {
    r.x + r.width
  }

  function Bottom(r: Rect): int {
    r.y + r.height
  }

  /** gui_rect_is_empty */
  predicate RectIsEmpty(r: Rect) {
    r.width == 0 || r.height == 0
  }

  /** The pixels of a rectangle. */
  predicate Contains(r: Rect, px: int, py: int) {
    r.x <= px < Right(r) && r.y <= py < Bottom(r)
  }

  /** Every pixel of a is a pixel of b. */
  predicate Within(a: Rect, b: Rect) {
    RectIsEmpty(a) || (b.x <= a.x && Right(a) <= Right(b) && b.y <= a.y && Bottom(a) <= Bottom(b))
  }

  function Min(a: int, b: int): int {
    if a < b then a else b
  }

  function Max(a: int, b: int): int {
    if a > b then a else b
  }

  /** The (uint32_t) cast. */
  function Truncated(n: nat): u32 {
    n % 0x1_0000_0000
  }

  /** gui_rect_intersect: exactly the common pixels, or failure when there are
      none. */
  function RectIntersect(first: Rect, second: Rect): (r: Option<Rect>)
    ensures r.Some? ==> !RectIsEmpty(r.value) && forall px, py :: Contains(r.value, px, py) <==> Contains(first, px, py) && Contains(second, px, py)
    ensures r.None? ==> forall px, py :: !(Contains(first, px, py) && Contains(second, px, py))
  {
    if RectIsEmpty(first) || RectIsEmpty(second) then None
    else
      var left, top := Max(first.x, second.x), Max(first.y, second.y);
      var right, bottom := Min(Right(first), Right(second)), Min(Bottom(first), Bottom(second));
      if right <= left || bottom <= top then None else Some(Rect(left, top, Truncated(right - left), Truncated(bottom - top)))
  }

  /** gui_rect_union: the extents are cut to 32 bits. */
  function RectUnion(first: Rect, second: Rect): (r: Option<Rect>)
    ensures r.None? <==> RectIsEmpty(first) && RectIsEmpty(second)
  {
    if RectIsEmpty(first) then (if RectIsEmpty(second) then None else Some(second))
    else if RectIsEmpty(second) then Some(first)
    else
      var left, top := Min(first.x, second.x), Min(first.y, second.y);
      var right, bottom := Max(Right(first), Right(second)), Max(Bottom(first), Bottom(second));
      if right <= left || bottom <= top then None else Some(Rect(left, top, Truncated(right - left), Truncated(bottom - top)))
  }

  /** Both extents of the bounding box fit in 32 bits. */
  predicate ExtentFits(first: Rect, second: Rect) {
    || RectIsEmpty(first) || RectIsEmpty(second)
    || (&& Max(Right(first), Right(second)) - Min(first.x, second.x) < 0x1_0000_0000
        && Max(Bottom(first), Bottom(second)) - Min(first.y, second.y) < 0x1_0000_0000)
  }

  /** The union covers both rectangles exactly when the bounding box fits, and
      then no smaller rectangle would do. */
  lemma UnionCovers(first: Rect, second: Rect)
    requires RectUnion(first, second).Some?
    ensures Within(first, RectUnion(first, second).value) && Within(second, RectUnion(first, second).value) <==> ExtentFits(first, second)
    ensures ExtentFits(first, second) ==>
              forall box: Rect :: Within(first, box) && Within(second, box) ==> Within(RectUnion(first, second).value, box)
  {
    if !RectIsEmpty(first) && !RectIsEmpty(second) {
      var width := Max(Right(first), Right(second)) - Min(first.x, second.x);
      var height := Max(Bottom(first), Bottom(second)) - Min(first.y, second.y);
      TruncatedFits(width);
      TruncatedFits(height);
    }
  }

  lemma TruncatedFits(n: nat)
    ensures Truncated(n) <= n && (Truncated(n) == n <==> n < 0x1_0000_0000)
  {
  }

  /** A union that loses pixels: the extent is one more than 32 bits hold. */
  lemma UnionCanLose()
    ensures
      var a, b := Rect(-1, 0, 1, 1), Rect(0, 0, 0xFFFF_FFFF, 1);
      && RectUnion(a, b) == Some(Rect(-1, 0, 0, 1))
      && Contains(a, -1, 0) && !Contains(Rect(-1, 0, 0, 1), -1, 0)
  {
    hide Truncated;
    WrapsToZero();
  }

  lemma WrapsToZero()
    ensures Truncated(0x1_0000_0000) == 0 && Truncated(1) == 1
  {
  }

  /** gui_rects_touch_or_overlap */
  predicate RectsTouchOrOverlap(first: Rect, second: Rect) {
    && !RectIsEmpty(first) && !RectIsEmpty(second)
    && first.x <= Right(second) && Right(first) >= second.x
    && first.y <= Bottom(second) && Bottom(first) >= second.y
  }

  predicate Neighbours(px: int, py: int, qx: int, qy: int) {
    -1 <= px - qx <= 1 && -1 <= py - qy <= 1
  }

  /** Rectangles touch exactly when a pixel of one is, or is next to (also
      diagonally), a pixel of the other. */
  lemma TouchMeansNeighbours(a: Rect, b: Rect)
    ensures RectsTouchOrOverlap(a, b) <==>
              exists px, py, qx, qy :: Contains(a, px, py) && Contains(b, qx, qy) && Neighbours(px, py, qx, qy)
  {
    if RectsTouchOrOverlap(a, b) {
      var px, qx := Nearest(a.x, Right(a), b.x, Right(b));
      var py, qy := Nearest(a.y, Bottom(a), b.y, Bottom(b));
      assert Contains(a, px, py) && Contains(b, qx, qy) && Neighbours(px, py, qx, qy);
    }
  }

  lemma Nearest(l: int, r: int, l': int, r': int) returns (p: int, q: int)
    requires l < r && l' < r' && l <= r' && r >= l'
    ensures l <= p < r && l' <= q < r' && -1 <= p - q <= 1
  {
    if r <= l' {
      p, q := r - 1, l';
    } else if r' <= l {
      p, q := l, r' - 1;
    } else {
      p, q := Max(l, l'), Max(l, l');
    }
  }
}
