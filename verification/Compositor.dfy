/** Damage tracking: which parts of the screen no longer show the back buffer. */
module Compositors {
  import opened Machine
  import opened Options
  import opened Surface
  import opened Framebuffers

  const GUI_COMPOSITOR_MAX_DAMAGE_RECTS := 32

  predicate OnScreen(r: Rect, width: nat, height: nat) {
    !RectIsEmpty(r) && 0 <= r.x && 0 <= r.y && Right(r) <= width && Bottom(r) <= height
  }

  /** The list as the compositor keeps it: on the screen, and no two touch. */
  predicate Tidy(rects: seq<Rect>, width: nat, height: nat) {
    && (forall i :: 0 <= i < |rects| ==> OnScreen(rects[i], width, height))
    && (forall i, j :: 0 <= i < j < |rects| ==> !RectsTouchOrOverlap(rects[i], rects[j]))
  }

  predicate Covered(rects: seq<Rect>, px: int, py: int) {
    exists i :: 0 <= i < |rects| && Contains(rects[i], px, py)
  }

  predicate AllWithin(rects: seq<Rect>, box: Rect) {
    forall i :: 0 <= i < |rects| ==> Within(rects[i], box)
  }

  /** Merging lost no pixel, and stayed inside every box that held what there
      was before. */
  ghost predicate Keeps(old1: seq<Rect>, new1: Rect, rects: seq<Rect>, r: Rect) {
    && (forall px, py :: Covered(old1, px, py) || Contains(new1, px, py) ==> Covered(rects, px, py) || Contains(r, px, py))
    && (forall box :: AllWithin(old1, box) && Within(new1, box) ==> AllWithin(rects, box) && Within(r, box))
  }

  /** Entry i replaced by the last one, and the list one shorter. */
  function Removed(rects: seq<Rect>, i: nat): seq<Rect>
    requires i < |rects|
  {
    rects[i := rects[|rects| - 1]][..|rects| - 1]
  }

  lemma RemovedFacts(rects: seq<Rect>, i: nat, width: nat, height: nat)
    requires i < |rects| && Tidy(rects, width, height)
    ensures Tidy(Removed(rects, i), width, height)
    ensures forall px, py :: Covered(rects, px, py) ==> Covered(Removed(rects, i), px, py) || Contains(rects[i], px, py)
    ensures forall box :: AllWithin(rects, box) ==> AllWithin(Removed(rects, i), box)
  {
    hide RectsTouchOrOverlap, OnScreen, Contains, Within;
    var s, n := Removed(rects, i), |rects| - 1;
    forall px, py | Covered(rects, px, py) ensures Covered(s, px, py) || Contains(rects[i], px, py) {
      var k :| 0 <= k < |rects| && Contains(rects[k], px, py);
      if k == n && i < n {
        assert s[i] == rects[n];
      } else if k < n && k != i {
        assert s[k] == rects[k];
      }
    }
    forall j, k | 0 <= j < k < |s| ensures !RectsTouchOrOverlap(s[j], s[k]) {
      TouchSymmetric(rects[k], rects[n]);
      TouchSymmetric(rects[n], rects[k]);
    }
  }

  lemma TouchSymmetric(a: Rect, b: Rect)
    ensures RectsTouchOrOverlap(a, b) == RectsTouchOrOverlap(b, a)
  {
  }

  function ScreenRect(width: nat, height: nat): Rect
    requires width < 0x4000_0000 && height < 0x4000_0000
  {
    Rect(0, 0, width, height)
  }

  /** Two rectangles on the screen have a union on the screen that holds both. */
  lemma UnionOnScreen(a: Rect, b: Rect, width: nat, height: nat)
    requires width < 0x4000_0000 && height < 0x4000_0000 && OnScreen(a, width, height) && OnScreen(b, width, height)
    ensures RectUnion(a, b).Some?
    ensures OnScreen(RectUnion(a, b).value, width, height)
    ensures forall px, py :: Contains(a, px, py) || Contains(b, px, py) ==> Contains(RectUnion(a, b).value, px, py)
    ensures forall box :: Within(a, box) && Within(b, box) ==> Within(RectUnion(a, b).value, box)
  {
    UnionCovers(a, b);
    assert Within(RectUnion(a, b).value, ScreenRect(width, height));
  }

  lemma MergeKeeps(old1: seq<Rect>, new1: Rect, rects: seq<Rect>, r: Rect, i: nat, width: nat, height: nat)
    requires width < 0x4000_0000 && height < 0x4000_0000
    requires Keeps(old1, new1, rects, r) && Tidy(rects, width, height) && OnScreen(r, width, height) && i < |rects|
    ensures RectUnion(r, rects[i]).Some?
    ensures
      var r' := RectUnion(r, rects[i]).value;
      Keeps(old1, new1, Removed(rects, i), r') && Tidy(Removed(rects, i), width, height) && OnScreen(r', width, height)
  {
    hide RectUnion, Contains, Within, RectsTouchOrOverlap, Removed, OnScreen;
    RemovedFacts(rects, i, width, height);
    UnionOnScreen(r, rects[i], width, height);
  }

  /** A rectangle that touches none joins the list. */
  lemma Joins(rects: seq<Rect>, r: Rect, width: nat, height: nat)
    requires Tidy(rects, width, height) && OnScreen(r, width, height)
    requires forall i :: 0 <= i < |rects| ==> !RectsTouchOrOverlap(r, rects[i])
    ensures Tidy(rects + [r], width, height)
    ensures forall px, py :: Covered(rects, px, py) || Contains(r, px, py) <==> Covered(rects + [r], px, py)
    ensures forall box :: AllWithin(rects, box) && Within(r, box) <==> AllWithin(rects + [r], box)
  {
    hide RectsTouchOrOverlap, OnScreen, Contains, Within;
    var s := rects + [r];
    forall i, j | 0 <= i < j < |s| ensures !RectsTouchOrOverlap(s[i], s[j]) {
      TouchSymmetric(s[i], s[j]);
    }
    forall px, py | Covered(rects, px, py) || Contains(r, px, py) ensures Covered(s, px, py) {
      if Covered(rects, px, py) {
        var i :| 0 <= i < |rects| && Contains(rects[i], px, py);
        assert Contains(s[i], px, py);
      } else {
        assert s[|rects|] == r;
      }
    }
    forall box | AllWithin(s, box) ensures AllWithin(rects, box) && Within(r, box) {
      assert s[|rects|] == r;
      assert forall i :: 0 <= i < |rects| ==> s[i] == rects[i];
    }
  }

  lemma KeepsNothing(rects: seq<Rect>, r: Rect)
    ensures Keeps(rects, r, rects, r)
  {
  }

  class Compositor {
    const width: nat
    const height: nat
    const back: array<bv32>
    const screen: Framebuffer
    const damage: array<Rect>
    var damageCount: nat
    var fullDamage: bool

    /** The back buffer has 4 * width bytes to a row and fits in memory, so both
        sides are below 2^30. */
    predicate Fixed() {
      && 0 < width < 0x4000_0000 && 0 < height < 0x4000_0000
      && back.Length == Index(width, 0, height)
      && screen.Valid() && screen.width == width && screen.height == height && screen.pixels != back
      && (damage as object) != (back as object) && (damage as object) != (screen.pixels as object)
      && damage.Length == GUI_COMPOSITOR_MAX_DAMAGE_RECTS
    }

    predicate Valid()
      reads this, damage
    {
      && Fixed()
      && damageCount <= GUI_COMPOSITOR_MAX_DAMAGE_RECTS
      && (fullDamage ==> damageCount == 0)
      && Tidy(damage[..damageCount], width, height)
    }

    constructor (width: nat, height: nat, back: array<bv32>, screen: Framebuffer)
      requires 0 < width < 0x4000_0000 && 0 < height < 0x4000_0000 && back.Length == Index(width, 0, height)
      requires screen.Valid() && screen.width == width && screen.height == height && screen.pixels != back
      ensures Valid() && fresh(damage) && damageCount == 0 && !fullDamage
    {
      this.width, this.height, this.back, this.screen := width, height, back, screen;
      damage := new Rect[GUI_COMPOSITOR_MAX_DAMAGE_RECTS](_ => Rect(0, 0, 0, 0));
      damageCount, fullDamage := 0, false;
    }

    ghost predicate Damaged(px: int, py: int)
      reads this, damage
      requires damageCount <= damage.Length
    {
      fullDamage || Covered(damage[..damageCount], px, py)
    }

    /** gui_compositor_damage_all */
    method DamageAll()
      requires Valid()
      modifies this`fullDamage, this`damageCount
      ensures Valid() && fullDamage
    {
      fullDamage, damageCount := true, 0;
    }

    /** The merge loop of gui_compositor_damage. */
    method Merge(r: Rect) returns (clipped: Rect)
      requires Valid() && OnScreen(r, width, height)
      modifies this`damageCount, damage
      ensures Fixed() && damageCount <= old(damageCount) && Tidy(damage[..damageCount], width, height)
      ensures OnScreen(clipped, width, height) && Keeps(old(damage[..damageCount]), r, damage[..damageCount], clipped)
      ensures forall i :: 0 <= i < damageCount ==> !RectsTouchOrOverlap(clipped, damage[i])
    {
      hide Keeps, Tidy, OnScreen, RectsTouchOrOverlap, RectUnion;
      clipped := r;
      KeepsNothing(damage[..damageCount], r);
      var merged := true;
      while merged
        invariant damageCount <= old(damageCount) && Tidy(damage[..damageCount], width, height)
        invariant OnScreen(clipped, width, height) && Keeps(old(damage[..damageCount]), r, damage[..damageCount], clipped)
        invariant !merged ==> forall i :: 0 <= i < damageCount ==> !RectsTouchOrOverlap(clipped, damage[i])
        decreases damageCount, merged
      {
        merged := false;
        var index := 0;
        ghost var count := damageCount;
        while index < damageCount
          invariant index <= damageCount == count && !merged
          invariant Tidy(damage[..damageCount], width, height) && OnScreen(clipped, width, height)
          invariant Keeps(old(damage[..damageCount]), r, damage[..damageCount], clipped)
          invariant forall i :: 0 <= i < index ==> !RectsTouchOrOverlap(clipped, damage[i])
        {
          if RectsTouchOrOverlap(clipped, damage[index]) {
            ghost var rects := damage[..damageCount];
            MergeKeeps(old(damage[..damageCount]), r, rects, clipped, index, width, height);
            var combined := RectUnion(clipped, damage[index]);
            if combined.Some? {
              clipped := combined.value;
              damage[index] := damage[damageCount - 1];
              damageCount := damageCount - 1;
              assert damage[..damageCount] == Removed(rects, index);
              merged := true;
              break;
            }
          }
          index := index + 1;
        }
      }
    }

    /** gui_compositor_damage: no pixel that was damaged, and no pixel of rect
        that is on the screen, is lost. */
    method Damage(rect: Rect)
      requires Valid()
      modifies this`damageCount, this`fullDamage, damage
      ensures Valid()
      ensures forall px, py :: 0 <= px < width && 0 <= py < height && (old(Damaged(px, py)) || Contains(rect, px, py)) ==> Damaged(px, py)
      ensures fullDamage && !old(fullDamage) ==> old(damageCount) == 32
      ensures !fullDamage && RectIntersect(rect, ScreenRect(width, height)).Some? ==>
                forall box :: old(AllWithin(damage[..damageCount], box)) && Within(RectIntersect(rect, ScreenRect(width, height)).value, box) ==>
                  AllWithin(damage[..damageCount], box)
      ensures !fullDamage && RectIntersect(rect, ScreenRect(width, height)).None? ==>
                damage[..damageCount] == old(damage[..damageCount])
    {
      hide RectsTouchOrOverlap, RectUnion, RectIntersect, Within, AllWithin, Covered;
      if fullDamage {
        return;
      }
      var common := RectIntersect(rect, ScreenRect(width, height));
      if common.None? {
        return;
      }
      InScreen(rect, width, height);
      var clipped := Merge(common.value);
      if damageCount >= GUI_COMPOSITOR_MAX_DAMAGE_RECTS {
        fullDamage, damageCount := true, 0;
        return;
      }
      ghost var rects := damage[..damageCount];
      Joins(rects, clipped, width, height);
      damage[damageCount] := clipped;
      damageCount := damageCount + 1;
      assert damage[..damageCount] == rects + [clipped];
    }

    /** A pixel that does not show what the back buffer holds. */
    ghost predicate Stale(x: nat, y: nat)
      reads back, screen.pixels
    {
      screen.Pixel(x, y) != screen.Shown(At(back[..], width, x, y))
    }

    /** The first half of gui_compositor_present, under the lock: the damage is
        moved out. */
    method TakeDamage() returns (full: bool, rects: seq<Rect>)
      requires Valid()
      modifies this`damageCount, this`fullDamage
      ensures Valid() && damageCount == 0 && !fullDamage
      ensures full == old(fullDamage) && Tidy(rects, width, height)
      ensures forall px, py :: old(Damaged(px, py)) <==> full || Covered(rects, px, py)
    {
      full := fullDamage;
      rects := [];
      if !full {
        for index := 0 to damageCount
          invariant rects == damage[..index]
        {
          rects := rects + [damage[index]];
        }
      }
      fullDamage, damageCount := false, 0;
    }

    /** The second half, without the lock: the damaged pixels are copied. */
    method CopyOut(full: bool, rects: seq<Rect>)
      requires Fixed() && Tidy(rects, width, height)
      modifies screen.pixels
      ensures forall x, y :: 0 <= x < width && 0 <= y < height ==>
                screen.Pixel(x, y) == if full || Covered(rects, x, y) then screen.Shown(At(back[..], width, x, y)) else old(screen.Pixel(x, y))
      ensures screen.redPosition == 16 && screen.greenPosition == 8 && screen.bluePosition == 0 ==>
                forall x, y :: 0 <= x < width && 0 <= y < height && (full || Covered(rects, x, y)) ==>
                  screen.Pixel(x, y) == At(back[..], width, x, y)
      ensures screen.Separate() ==>
                forall x, y :: 0 <= x < width && 0 <= y < height && (full || Covered(rects, x, y)) ==>
                  screen.Matches(screen.Pixel(x, y), At(back[..], width, x, y))
    {
      hide At, Readable, Covered, Framebuffer.Shown, Framebuffer.Matches;
      screen.ShownColors();
      if full {
        WholeReadable(width, height, back.Length);
        FromStart(back[..]);
        screen.BlitRgb32(0, 0, width, height, back, 0, 4 * width);
        return;
      }
      NothingCovered();
      for index := 0 to |rects|
        invariant forall x, y :: 0 <= x < width && 0 <= y < height ==>
                    screen.Pixel(x, y) == if Covered(rects[..index], x, y) then screen.Shown(At(back[..], width, x, y)) else old(screen.Pixel(x, y))
      {
        var rect := rects[index];
        PartReadable(width, height, rect, back.Length);
        screen.BlitRgb32(rect.x, rect.y, rect.width, rect.height, back, Index(width, rect.x, rect.y), 4 * width);
        OneMoreRect(rects, index);
        forall x, y | 0 <= x < width && 0 <= y < height && InRegion(x, y, rect.x, rect.y, rect.width, rect.height)
          ensures At(back[Index(width, rect.x, rect.y)..], width, x - rect.x, y - rect.y) == At(back[..], width, x, y)
        {
          ShiftedAt(back[..], width, rect.x, rect.y, x - rect.x, y - rect.y);
        }
      }
      assert rects[..|rects|] == rects;
    }

    /** gui_compositor_present: exactly the damaged pixels are copied, so if
        every stale pixel was damaged, none is stale afterwards. */
    method Present()
      requires Valid()
      modifies this`damageCount, this`fullDamage, screen.pixels
      ensures Valid() && damageCount == 0 && !fullDamage
      ensures forall x, y :: 0 <= x < width && 0 <= y < height ==>
                screen.Pixel(x, y) == if old(Damaged(x, y)) then screen.Shown(At(back[..], width, x, y)) else old(screen.Pixel(x, y))
      ensures (forall x, y :: 0 <= x < width && 0 <= y < height && old(Stale(x, y)) ==> old(Damaged(x, y))) ==>
                && (forall x, y :: 0 <= x < width && 0 <= y < height ==> !Stale(x, y))
                && (screen.redPosition == 16 && screen.greenPosition == 8 && screen.bluePosition == 0 ==>
                      forall x, y :: 0 <= x < width && 0 <= y < height ==> screen.Pixel(x, y) == At(back[..], width, x, y))
                && (screen.Separate() ==>
                      forall x, y :: 0 <= x < width && 0 <= y < height ==>
                        screen.Matches(screen.Pixel(x, y), At(back[..], width, x, y)))
    {
      hide At, Framebuffer.Shown, Framebuffer.Matches;
      screen.ShownColors();
      var full, rects := TakeDamage();
      if !full && |rects| == 0 {
        return;
      }
      CopyOut(full, rects);
    }

    /** Every stale pixel is damaged, or in damage that a present has taken and
        not yet copied. */
    ghost predicate Accounted(full: bool, rects: seq<Rect>)
      reads this, damage, back, screen.pixels
      requires damageCount <= damage.Length
    {
      forall x, y :: 0 <= x < width && 0 <= y < height && Stale(x, y) ==> Damaged(x, y) || full || Covered(rects, x, y)
    }

    /** The protocol of everything that draws: change the back buffer, then
        report the damage. */
    method DrawPixel(x: nat, y: nat, color: bv32, ghost full: bool, ghost rects: seq<Rect>)
      requires Valid() && x < width && y < height && Accounted(full, rects)
      modifies back, this`damageCount, this`fullDamage, damage
      ensures Valid() && Accounted(full, rects)
      ensures At(back[..], width, x, y) == color
      ensures forall px, py :: 0 <= px < width && 0 <= py < height && !(px == x && py == y) ==>
                At(back[..], width, px, py) == old(At(back[..], width, px, py))
    {
      hide Index, At, Covered, Tidy, RectIntersect, AllWithin;
      RowFits(width, width, height, y);
      ghost var before := back[..];
      back[Index(width, x, y)] := color;
      Drawn(back[..], width, x, y);
      forall px, py | 0 <= px < width && 0 <= py < height && !(px == x && py == y) ensures At(back[..], width, px, py) == At(before, width, px, py) {
        OtherPixel(before, back[..], width, x, y, px, py);
      }
      label drawn:
      Damage(Rect(x, y, 1, 1));
      forall px, py | 0 <= px < width && 0 <= py < height && Stale(px, py) ensures Damaged(px, py) || full || Covered(rects, px, py) {
        if px != x || py != y {
          assert old(Stale(px, py));
          assert old(Damaged(px, py)) ==> old@drawn(Damaged(px, py));
        } else {
          assert Contains(Rect(x, y, 1, 1), px, py);
        }
      }
    }

    /** A present with drawing between its two halves, as the lock allows: what
        was drawn in between is on the screen afterwards or still damaged. */
    method PresentAmid(draws: seq<(nat, nat, bv32)>)
      requires Valid() && Accounted(false, [])
      modifies back, this`damageCount, this`fullDamage, damage, screen.pixels
      ensures Valid() && Accounted(false, [])
    {
      hide Index, At, Covered, Tidy, RectIntersect, AllWithin;
      NothingCovered();
      var full, rects := TakeDamage();
      for i := 0 to |draws|
        invariant Valid() && Accounted(full, rects)
      {
        if draws[i].0 < width && draws[i].1 < height {
          DrawPixel(draws[i].0, draws[i].1, draws[i].2, full, rects);
        }
      }
      ghost var drawn := back[..];
      label taken:
      CopyOut(full, rects);
      forall x, y | 0 <= x < width && 0 <= y < height && Stale(x, y) ensures Damaged(x, y) || Covered([], x, y) {
        assert full || Covered(rects, x, y) || old@taken(Stale(x, y));
      }
    }
  }

  lemma Drawn(after: seq<bv32>, width: nat, x: nat, y: nat)
    requires Index(width, x, y) < |after|
    ensures At(after, width, x, y) == after[Index(width, x, y)]
  {
  }

  lemma OtherPixel(before: seq<bv32>, after: seq<bv32>, width: nat, x: nat, y: nat, px: nat, py: nat)
    requires x < width && px < width && (px != x || py != y)
    requires Index(width, x, y) < |before| == |after| && after == before[Index(width, x, y) := after[Index(width, x, y)]]
    ensures At(after, width, px, py) == At(before, width, px, py)
  {
    if Index(width, px, py) == Index(width, x, y) {
      IndexInjective(width, px, py, x, y);
    }
  }

  lemma InScreen(rect: Rect, width: nat, height: nat)
    requires width < 0x4000_0000 && height < 0x4000_0000 && RectIntersect(rect, ScreenRect(width, height)).Some?
    ensures OnScreen(RectIntersect(rect, ScreenRect(width, height)).value, width, height)
    ensures forall px, py :: 0 <= px < width && 0 <= py < height && Contains(rect, px, py) ==>
              Contains(RectIntersect(rect, ScreenRect(width, height)).value, px, py)
  {
  }

  lemma NothingCovered()
    ensures forall px, py :: !Covered([], px, py)
  {
  }

  lemma OneMoreRect(rects: seq<Rect>, i: nat)
    requires i < |rects|
    ensures forall px, py :: Covered(rects[..i + 1], px, py) <==> Covered(rects[..i], px, py) || Contains(rects[i], px, py)
  {
    hide Contains;
    var s := rects[..i + 1];
    assert s[i] == rects[i];
    forall px, py | Covered(rects[..i], px, py) ensures Covered(s, px, py) {
      var k :| 0 <= k < i && Contains(rects[..i][k], px, py);
      assert s[k] == rects[..i][k];
    }
  }

  lemma WholeReadable(width: nat, height: nat, length: nat)
    requires 0 < width && 0 < height && length == Index(width, 0, height)
    ensures Readable(length, 0, width, Clipped(width, 0, width), Clipped(height, 0, height))
  {
    RowFits(width, width, height, height - 1);
  }

  lemma PartReadable(width: nat, height: nat, r: Rect, length: nat)
    requires OnScreen(r, width, height) && length == Index(width, 0, height)
    ensures Index(width, r.x, r.y) <= length
    ensures Readable(length, Index(width, r.x, r.y), width, Clipped(r.width, r.x, width), Clipped(r.height, r.y, height))
  {
    RowFits(width, width, height, r.y);
    RowFits(width, width, height, r.y + r.height - 1);
    assert Index(width, r.x + r.width - 1, r.y + r.height - 1) == Index(width, r.x, r.y) + Index(width, r.width - 1, r.height - 1);
  }

  lemma FromStart(s: seq<bv32>)
    ensures s[0..] == s
  {
  }

  lemma ShiftedAt(s: seq<bv32>, width: nat, x: nat, y: nat, dx: nat, dy: nat)
    requires Index(width, x, y) <= |s|
    ensures At(s[Index(width, x, y)..], width, dx, dy) == At(s, width, x + dx, y + dy)
  {
    assert Index(width, x + dx, y + dy) == Index(width, x, y) + Index(width, dx, dy);
  }
}
