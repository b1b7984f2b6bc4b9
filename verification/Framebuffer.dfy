/** The screen: pixels in a mapped buffer whose rows may be padded. */
module Framebuffers {
  import opened Arithmetic

  function Index(stride: nat, x: nat, y: nat): nat {
    y * stride + x
  }

  /** The pixel at (x, y) of a buffer with this many pixels from row to row. */
  function At(s: seq<bv32>, stride: nat, x: nat, y: nat): bv32 {
    if Index(stride, x, y) < |s| then s[Index(stride, x, y)] else 0
  }

  /** How much of n pixels from origin on is below limit. */
  function Clipped(n: nat, origin: nat, limit: nat): nat {
    if origin >= limit then 0 else if n > limit - origin then limit - origin else n
  }

  predicate InRegion(x: nat, y: nat, dx: nat, dy: nat, w: nat, h: nat) {
    dx <= x < dx + w && dy <= y < dy + h
  }

  /** The rows of a region of w by h pixels lie in a buffer of this length. */
  predicate Readable(length: nat, start: nat, pitch: nat, w: nat, h: nat) {
    w > 0 && h > 0 ==> start + Index(pitch, w - 1, h - 1) < length
  }

  lemma IndexInjective(stride: nat, x: nat, y: nat, x': nat, y': nat)
    requires x < stride && x' < stride && Index(stride, x, y) == Index(stride, x', y')
    ensures x == x' && y == y'
  {
    DivModUnique(stride, y, x, y', x');
  }

  lemma RowFits(stride: nat, width: nat, height: nat, y: nat)
    requires y < height && width <= stride
    ensures Index(stride, 0, y) + width <= Index(stride, 0, height)
    ensures forall x :: 0 <= x < width ==> Index(stride, x, y) == Index(stride, 0, y) + x < Index(stride, 0, height)
  {
    if stride > 0 {
      MulLess(y, height, stride);
    }
  }

  lemma RowReadable(length: nat, start: nat, pitch: nat, w: nat, h: nat, y: nat)
    requires Readable(length, start, pitch, w, h) && w > 0 && y < h
    ensures start + Index(pitch, 0, y) + w <= length
  {
    MulMono(pitch, y, h - 1);
  }

  /** count pixels of row dy, from column dx on, were written. */
  predicate RowChanged(before: seq<bv32>, after: seq<bv32>, at: nat, row: seq<bv32>) {
    && |after| == |before| && at + |row| <= |before|
    && forall i :: 0 <= i < |before| ==> after[i] == if at <= i < at + |row| then row[i - at] else before[i]
  }

  lemma RowPixels(before: seq<bv32>, after: seq<bv32>, stride: nat, dx: nat, y0: nat, row: seq<bv32>, x: nat, y: nat)
    requires RowChanged(before, after, Index(stride, dx, y0), row) && dx + |row| <= stride && x < stride
    ensures At(after, stride, x, y) == if y == y0 && dx <= x < dx + |row| then row[x - dx] else At(before, stride, x, y)
  {
    var i, at := Index(stride, x, y), Index(stride, dx, y0);
    if at <= i < at + |row| {
      IndexInjective(stride, x, y, dx + (i - at), y0);
    }
  }

  /** A distance in bytes as a number of pixels. */
  function Words(bytes: nat): nat {
    bytes / 4
  }

  /** Where a colour's eight bits may be; other places are refused at start. */
  type Position = p: bv8 | p <= 24

  /** The eight bits at this position. */
  function Channel(pixel: bv32, position: Position): bv32
  {
    (pixel >> position) & 0xFF
  }

  function Placed(value: bv32, position: Position): bv32
  {
    value << position
  }

  /** framebuffer_pack_rgb */
  function Packed(rgb: bv32, red: Position, green: Position, blue: Position): bv32
  {
    Placed((rgb >> 16) & 0xFF, red) | Placed((rgb >> 8) & 0xFF, green) | Placed(rgb & 0xFF, blue)
  }

  predicate Apart(p: Position, q: Position) {
    p + 8 <= q || q + 8 <= p
  }

  lemma ChannelOr(x: bv32, y: bv32, p: Position)
    ensures Channel(x | y, p) == Channel(x, p) | Channel(y, p)
  {
  }

  lemma ChannelPlaced(u: bv32, p: Position)
    requires u <= 0xFF
    ensures Channel(Placed(u, p), p) == u
  {
  }

  lemma ChannelOther(v: bv32, p: Position, q: Position)
    requires v <= 0xFF && Apart(p, q)
    ensures Channel(Placed(v, q), p) == 0
  {
  }

  lemma OrZero(x: bv32)
    ensures x | 0 == x
  {
  }

  lemma FirstOfThree(u: bv32, v: bv32, w: bv32, p: Position, q: Position, r: Position)
    requires u <= 0xFF && v <= 0xFF && w <= 0xFF && Apart(p, q) && Apart(p, r)
    ensures Channel(Placed(u, p) | Placed(v, q) | Placed(w, r), p) == u
  {
    hide Channel, Placed, Apart;
    ChannelOr(Placed(u, p) | Placed(v, q), Placed(w, r), p);
    ChannelOr(Placed(u, p), Placed(v, q), p);
    ChannelPlaced(u, p);
    ChannelOther(v, p, q);
    ChannelOther(w, p, r);
    OrZero(u);
  }

  lemma OrMoves(x: bv32, y: bv32, z: bv32)
    ensures y | x | z == x | y | z && y | z | x == x | y | z
  {
  }

  lemma ByteSized(c: bv32)
    ensures (c >> 16) & 0xFF <= 0xFF && (c >> 8) & 0xFF <= 0xFF && c & 0xFF <= 0xFF
  {
  }

  lemma NativeChannels(c: bv32)
    ensures Channel(c, 16) == (c >> 16) & 0xFF && Channel(c, 8) == (c >> 8) & 0xFF && Channel(c, 0) == c & 0xFF
  {
  }

  lemma PackedColors(c: bv32, red: Position, green: Position, blue: Position)
    requires Apart(red, green) && Apart(red, blue) && Apart(green, blue)
    ensures Channel(Packed(c, red, green, blue), red) == (c >> 16) & 0xFF
    ensures Channel(Packed(c, red, green, blue), green) == (c >> 8) & 0xFF
    ensures Channel(Packed(c, red, green, blue), blue) == c & 0xFF
  {
    hide Channel, Placed;
    var r, g, b := (c >> 16) & 0xFF, (c >> 8) & 0xFF, c & 0xFF;
    ByteSized(c);
    FirstOfThree(r, g, b, red, green, blue);
    FirstOfThree(g, r, b, green, red, blue);
    FirstOfThree(b, r, g, blue, red, green);
    OrMoves(Placed(g, green), Placed(r, red), Placed(b, blue));
    OrMoves(Placed(b, blue), Placed(r, red), Placed(g, green));
  }

  /** Packing gives every colour back exactly when no two of the three places
      overlap; the source only asks each to be at most 24. */
  lemma PackedExact(red: Position, green: Position, blue: Position)
    ensures Apart(red, green) && Apart(red, blue) && Apart(green, blue) <==>
              forall c :: && Channel(Packed(c, red, green, blue), red) == (c >> 16) & 0xFF
                          && Channel(Packed(c, red, green, blue), green) == (c >> 8) & 0xFF
                          && Channel(Packed(c, red, green, blue), blue) == c & 0xFF
  {
    hide Channel, Packed, Apart;
    if Apart(red, green) && Apart(red, blue) && Apart(green, blue) {
      forall c ensures && Channel(Packed(c, red, green, blue), red) == (c >> 16) & 0xFF
                       && Channel(Packed(c, red, green, blue), green) == (c >> 8) & 0xFF
                       && Channel(Packed(c, red, green, blue), blue) == c & 0xFF
      {
        PackedColors(c, red, green, blue);
      }
    } else {
      GreenOverlaps(red, green, blue);
      BlueOverlaps(red, green, blue);
    }
  }

  lemma GreenOverlaps(red: Position, green: Position, blue: Position)
    ensures !Apart(red, green) ==> Channel(Packed(0xFF00, red, green, blue), red) != (0xFF00 >> 16) & 0xFF
  {
  }

  lemma BlueOverlaps(red: Position, green: Position, blue: Position)
    ensures !Apart(red, blue) ==> Channel(Packed(0xFF, red, green, blue), red) != (0xFF >> 16) & 0xFF
    ensures !Apart(green, blue) ==> Channel(Packed(0xFF, red, green, blue), green) != (0xFF >> 8) & 0xFF
  {
  }

  class Framebuffer {
    const width: nat
    const height: nat
    const stride: nat
    const redPosition: Position
    const greenPosition: Position
    const bluePosition: Position
    const pixels: array<bv32>

    predicate Valid() {
      width <= stride && pixels.Length == Index(stride, 0, height)
    }

    constructor (width: nat, height: nat, stride: nat, redPosition: Position, greenPosition: Position, bluePosition: Position)
      requires width <= stride
      ensures Valid() && fresh(pixels)
      ensures this.width == width && this.height == height && this.stride == stride
      ensures this.redPosition == redPosition && this.greenPosition == greenPosition && this.bluePosition == bluePosition
    {
      this.width, this.height, this.stride := width, height, stride;
      this.redPosition, this.greenPosition, this.bluePosition := redPosition, greenPosition, bluePosition;
      pixels := new bv32[Index(stride, 0, height)](_ => 0);
    }

    /** native_rgb: the format is 0x00RRGGBB itself. */
    predicate Native() {
      redPosition == 16 && greenPosition == 8 && bluePosition == 0
    }

    /** No two colours share a bit. */
    predicate Separate() {
      Apart(redPosition, greenPosition) && Apart(redPosition, bluePosition) && Apart(greenPosition, bluePosition)
    }

    /** How a 0x00RRGGBB colour is stored in this format. */
    function Shown(color: bv32): bv32
    {
      if Native() then color else Packed(color, redPosition, greenPosition, bluePosition)
    }

    /** The pixel's colours, wherever the format puts them, are the given ones. */
    predicate Matches(pixel: bv32, color: bv32)
    {
      && Channel(pixel, redPosition) == (color >> 16) & 0xFF
      && Channel(pixel, greenPosition) == (color >> 8) & 0xFF
      && Channel(pixel, bluePosition) == color & 0xFF
    }

    /** What is stored: the colour itself in the native format, and in every
        format whose colours do not overlap its red, green and blue. */
    lemma ShownColors()
      ensures Native() ==> forall c :: Shown(c) == c
      ensures Separate() ==> forall c :: Matches(Shown(c), c)
    {
      hide Packed, Channel;
      forall c | Separate() ensures Matches(Shown(c), c) {
        if Native() {
          NativeChannels(c);
        } else {
          PackedColors(c, redPosition, greenPosition, bluePosition);
        }
      }
    }

    function Pixel(x: nat, y: nat): bv32
      reads pixels
    {
      At(pixels[..], stride, x, y)
    }

    /** The inner loops of framebuffer_blit_rgb32: one row, in either format. */
    method CopyRow(nativeRgb: bool, at: nat, source: array<bv32>, start: nat, count: nat) returns (ghost row: seq<bv32>)
      requires nativeRgb == Native()
      requires source != pixels && at + count <= pixels.Length && start + count <= source.Length
      modifies pixels
      ensures |row| == count && forall k :: 0 <= k < count ==> row[k] == Shown(source[start + k])
      ensures RowChanged(old(pixels[..]), pixels[..], at, row)
    {
      hide Packed;
      row := seq<bv32>(count, k requires 0 <= k < count => Shown(old(source[start + k])));
      if nativeRgb {
        for x := 0 to count
          invariant forall i :: 0 <= i < pixels.Length ==> pixels[i] == if at <= i < at + x then row[i - at] else old(pixels[i])
        {
          assert row[x] == Shown(source[start + x]);
          pixels[at + x] := source[start + x];
        }
      } else {
        for x := 0 to count
          invariant forall i :: 0 <= i < pixels.Length ==> pixels[i] == if at <= i < at + x then row[i - at] else old(pixels[i])
        {
          assert row[x] == Shown(source[start + x]);
          pixels[at + x] := Packed(source[start + x], redPosition, greenPosition, bluePosition);
        }
      }
    }

    /** framebuffer_blit_rgb32: the part of the region that is on the screen
        shows the source, and no other pixel changes. sourcePitch is the
        distance of two rows in bytes; rows of 32-bit pixels are aligned. */
    method BlitRgb32(dx: nat, dy: nat, w: nat, h: nat, source: array<bv32>, start: nat, sourcePitch: nat)
      requires Valid() && source != pixels && (Clipped(h, dy, height) > 1 ==> sourcePitch % 4 == 0)
      requires sourcePitch >= 4 * Clipped(w, dx, width) ==>
                 Readable(source.Length, start, Words(sourcePitch), Clipped(w, dx, width), Clipped(h, dy, height))
      modifies pixels
      ensures start <= source.Length ==> forall x, y :: 0 <= x < width && 0 <= y < height ==>
                Pixel(x, y) == if InRegion(x, y, dx, dy, w, h) && 4 * Clipped(w, dx, width) <= sourcePitch
                               then Shown(At(source[start..], Words(sourcePitch), x - dx, y - dy)) else old(Pixel(x, y))
      ensures start > source.Length ==> pixels[..] == old(pixels[..])
      ensures start <= source.Length && 4 * Clipped(w, dx, width) <= sourcePitch ==>
                forall x, y :: 0 <= x < width && 0 <= y < height && InRegion(x, y, dx, dy, w, h) ==>
                  && (redPosition == 16 && greenPosition == 8 && bluePosition == 0 ==>
                        Pixel(x, y) == At(source[start..], Words(sourcePitch), x - dx, y - dy))
                  && (Separate() ==> Matches(Pixel(x, y), At(source[start..], Words(sourcePitch), x - dx, y - dy)))
    {
      hide Index, At, RowChanged, Readable, Matches, Shown;
      ShownColors();
      var cw, ch := Clipped(w, dx, width), Clipped(h, dy, height);
      if w == 0 || h == 0 || dx >= width || dy >= height {
        return;
      }
      if sourcePitch < 4 * cw {
        return;
      }
      var nativeRgb := redPosition == 16 && greenPosition == 8 && bluePosition == 0;
      var pitch := Words(sourcePitch);
      RowReadable(source.Length, start, pitch, cw, ch, 0);
      ghost var before := pixels[..];
      ghost var drawn := source[start..];
      var y := 0;
      while y < ch
        invariant y <= ch && pixels.Length == |before| && source[start..] == drawn
        invariant forall px, py :: 0 <= px < width && 0 <= py < height ==>
                    At(pixels[..], stride, px, py)
                    == if InRegion(px, py, dx, dy, cw, y) then Shown(At(drawn, pitch, px - dx, py - dy)) else At(before, stride, px, py)
      {
        RowFits(stride, width, height, dy + y);
        RowReadable(source.Length, start, pitch, cw, ch, y);
        ghost var prior := pixels[..];
        ghost var row := CopyRow(nativeRgb, Index(stride, dx, dy + y), source, start + Index(pitch, 0, y), cw);
        SourceRow(source[..], start, pitch, y, cw);
        forall px, py | 0 <= px < width && 0 <= py < height
          ensures At(pixels[..], stride, px, py)
                  == if InRegion(px, py, dx, dy, cw, y + 1) then Shown(At(drawn, pitch, px - dx, py - dy)) else At(before, stride, px, py)
        {
          RowPixels(prior, pixels[..], stride, dx, dy + y, row, px, py);
        }
        y := y + 1;
      }
    }
  }

  lemma SourceRow(s: seq<bv32>, start: nat, pitch: nat, y: nat, w: nat)
    requires start <= |s| && start + Index(pitch, 0, y) + w <= |s|
    ensures forall k :: 0 <= k < w ==> At(s[start..], pitch, k, y) == s[start + Index(pitch, 0, y) + k]
  {
  }
}
