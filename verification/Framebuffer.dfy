/** Clipped drawing into the back buffer (src/kernel/framebuffer.cpp). */
module Framebuffer {
  import opened Common

  // ---------------------------------------------------------------------
  // Pixels of a linear buffer.
  // ---------------------------------------------------------------------

  type int32 = x: int | -0x8000_0000 <= x < 0x8000_0000

  lemma {:induction false} RowsApart(width: nat, y1: nat, y2: nat)
    requires y1 < y2
    ensures y1 * width + width <= y2 * width
    decreases y2
  {
    assert y2 * width == (y2 - 1) * width + width;
    if y1 < y2 - 1 { RowsApart(width, y1, y2 - 1); }
  }

  /** Every pixel of the screen has its own place in the buffer. */
  lemma PlaceInRange(width: nat, height: nat, x: nat, y: nat)
    requires x < width && y < height
    ensures y * width + x < width * height
  {
    RowsApart(width, y, height);
  }

  lemma PlaceUnique(width: nat, x: nat, y: nat, x2: nat, y2: nat)
    requires x < width && x2 < width && y * width + x == y2 * width + x2
    ensures x == x2 && y == y2
  {
    if y < y2 { RowsApart(width, y, y2); }
    if y2 < y { RowsApart(width, y2, y); }
  }

  /** Every place in the buffer belongs to a pixel. */
  lemma {:induction false} PlaceOf(width: nat, height: nat, i: nat) returns (x: nat, y: nat)
    requires i < width * height
    ensures x < width && y < height && i == y * width + x
  {
    assert (height - 1) * width == width * height - width;
    if i >= (height - 1) * width {
      x, y := i - (height - 1) * width, height - 1;
    } else {
      x, y := PlaceOf(width, height - 1, i);
    }
  }

  function At(b: seq<u32>, width: nat, height: nat, x: nat, y: nat): u32
    requires |b| == width * height && x < width && y < height
  {
    PlaceInRange(width, height, x, y);
    b[y * width + x]
  }

  /** Buffers with the same pixels are equal. */
  lemma SamePixels(b: seq<u32>, b2: seq<u32>, width: nat, height: nat)
    requires |b| == |b2| == width * height
    requires forall x: nat, y: nat :: x < width && y < height ==> At(b, width, height, x, y) == At(b2, width, height, x, y)
    ensures b == b2
  {
    forall i | 0 <= i < |b| ensures b[i] == b2[i] {
      var x, y := PlaceOf(width, height, i);
      assert At(b, width, height, x, y) == At(b2, width, height, x, y);
    }
  }

  // ---------------------------------------------------------------------
  // Drawing pixel by pixel.
  // ---------------------------------------------------------------------

  /** What is drawn: one colour, or a sprite with pitch pixels per row and a transparent key. */
  datatype Brush = Solid(c: u32) | Sprite(src: seq<u32>, pitch: int, key: u32)

  /** The colour at column col and row row of the brush, if that pixel is drawn at all. */
  function Ink(brush: Brush, col: int, row: int): Option<u32> {
    match brush
    case Solid(c) => Some(c)
    case Sprite(src, pitch, key) =>
      var i := row * pitch + col;
      if 0 <= i < |src| && src[i] != key then Some(src[i]) else None
  }

  /** fb_put_pixel of a pixel that may be transparent. */
  function Plot(b: seq<u32>, width: nat, height: nat, x: int, y: int, ink: Option<u32>): (b2: seq<u32>)
    requires |b| == width * height
    ensures |b2| == |b|
  {
    if ink.None? || x < 0 || y < 0 || x >= width || y >= height then b
    else
      PlaceInRange(width, height, x, y);
      b[y * width + x := ink.value]
  }

  lemma PlotAt(b: seq<u32>, width: nat, height: nat, x: int, y: int, ink: Option<u32>, px: nat, py: nat)
    requires |b| == width * height && px < width && py < height
    ensures At(Plot(b, width, height, x, y, ink), width, height, px, py) ==
            if px == x && py == y && ink.Some? then ink.value else At(b, width, height, px, py)
  {
    PlaceInRange(width, height, px, py);
    if 0 <= x < width && 0 <= y < height {
      PlaceInRange(width, height, x, y);
      if y * width + x == py * width + px { PlaceUnique(width, x, y, px, py); }
    }
  }

  /** The first n pixels of one row of the brush, each plotted on its own. */
  function PaintRow(b: seq<u32>, width: nat, height: nat, x: int, y: int, brush: Brush, row: nat, n: nat): (b2: seq<u32>)
    requires |b| == width * height
    ensures |b2| == |b|
  {
    if n == 0 then b
    else
      Plot(PaintRow(b, width, height, x, y, brush, row, n - 1), width, height,
           x + (n - 1), y + row, Ink(brush, n - 1, row))
  }

  /** Every pixel of the first n rows of a w pixels wide rectangle, plotted on its own, without
      any clipping but that of fb_put_pixel. */
  function Paint(b: seq<u32>, width: nat, height: nat, x: int, y: int, brush: Brush, w: nat, n: nat): (b2: seq<u32>)
    requires |b| == width * height
    ensures |b2| == |b|
  {
    if n == 0 then b
    else PaintRow(Paint(b, width, height, x, y, brush, w, n - 1), width, height, x, y, brush, n - 1, w)
  }

  lemma {:induction false} PaintRowAt(b: seq<u32>, width: nat, height: nat, x: int, y: int, brush: Brush, row: nat, n: nat,
      px: nat, py: nat)
    requires |b| == width * height && px < width && py < height
    ensures At(PaintRow(b, width, height, x, y, brush, row, n), width, height, px, py) ==
            if py == y + row && 0 <= px - x < n && Ink(brush, px - x, row).Some? then Ink(brush, px - x, row).value
            else At(b, width, height, px, py)
  {
    if n > 0 {
      PaintRowAt(b, width, height, x, y, brush, row, n - 1, px, py);
      PlotAt(PaintRow(b, width, height, x, y, brush, row, n - 1), width, height,
             x + (n - 1), y + row, Ink(brush, n - 1, row), px, py);
    }
  }

  /** A pixel inside the rectangle shows the brush where it is not transparent; all others stay. */
  lemma {:induction false} PaintAt(b: seq<u32>, width: nat, height: nat, x: int, y: int, brush: Brush, w: nat, n: nat,
      px: nat, py: nat)
    requires |b| == width * height && px < width && py < height
    ensures At(Paint(b, width, height, x, y, brush, w, n), width, height, px, py) ==
            if 0 <= py - y < n && 0 <= px - x < w && Ink(brush, px - x, py - y).Some?
            then Ink(brush, px - x, py - y).value else At(b, width, height, px, py)
  {
    if n > 0 {
      PaintAt(b, width, height, x, y, brush, w, n - 1, px, py);
      PaintRowAt(Paint(b, width, height, x, y, brush, w, n - 1), width, height, x, y, brush, n - 1, w, px, py);
    }
  }

  /** A filled rectangle shows its colour inside; all other pixels stay. */
  lemma FilledAt(b: seq<u32>, width: nat, height: nat, x: int, y: int, c: u32, w: nat, h: nat, px: nat, py: nat)
    requires |b| == width * height && px < width && py < height
    ensures At(Paint(b, width, height, x, y, Solid(c), w, h), width, height, px, py) ==
            if x <= px < x + w && y <= py < y + h then c else At(b, width, height, px, py)
  {
    PaintAt(b, width, height, x, y, Solid(c), w, h, px, py);
  }

  /** A sprite shows its own pixels, row by row, except those of the key colour. */
  lemma SpriteAt(b: seq<u32>, width: nat, height: nat, x: int, y: int, src: seq<u32>, pitch: nat, key: u32, w: nat, h: nat,
      px: nat, py: nat, i: int)
    requires |b| == width * height && px < width && py < height
    requires i == (py - y) * pitch + (px - x) && (x <= px < x + w && y <= py < y + h ==> 0 <= i < |src|)
    ensures At(Paint(b, width, height, x, y, Sprite(src, pitch, key), w, h), width, height, px, py) ==
            if x <= px < x + w && y <= py < y + h && src[i] != key then src[i] else At(b, width, height, px, py)
  {
    PaintAt(b, width, height, x, y, Sprite(src, pitch, key), w, h, px, py);
  }

  // ---------------------------------------------------------------------
  // Drawing clipped rectangles.
  // ---------------------------------------------------------------------

  function Max0(n: int): nat { if n > 0 then n else 0 }

  predicate Within(p: int, x: int, w: int) { x <= p < x + w }

  /** The pixels inside a rectangle, at (x0, y0) and w0 by h0 pixels large, show the brush whose
      origin is at (x, y); all others are as in b. */
  ghost predicate Drawn(b: seq<u32>, b2: seq<u32>, width: nat, height: nat, brush: Brush, x: int, y: int,
      x0: int, y0: int, w0: int, h0: int)
    requires |b| == |b2| == width * height
  {
    forall px: nat, py: nat :: px < width && py < height ==>
      At(b2, width, height, px, py) ==
        if Within(px, x0, w0) && Within(py, y0, h0) && Ink(brush, px - x, py - y).Some?
        then Ink(brush, px - x, py - y).value else At(b, width, height, px, py)
  }

  /** Places [o, o + n) of the buffer show row row of the brush from column col on. */
  ghost predicate RowDrawn(b: seq<u32>, b2: seq<u32>, o: nat, n: nat, brush: Brush, col: int, row: int) {
    |b2| == |b| &&
    forall i :: 0 <= i < |b| ==>
      b2[i] == if o <= i < o + n && Ink(brush, col + (i - o), row).Some? then Ink(brush, col + (i - o), row).value
               else b[i]
  }

  /** A pixel lies in a stretch of row y1 exactly when its place does. */
  lemma RowHit(width: nat, px: nat, py: nat, x0: nat, w0: nat, y1: nat, i: nat, o: nat)
    requires px < width && x0 + w0 <= width && i == py * width + px && o == y1 * width + x0
    ensures o <= i < o + w0 <==> py == y1 && Within(px, x0, w0)
    ensures py == y1 ==> i - o == px - x0
  {
    if py < y1 { RowsApart(width, py, y1); }
    if py > y1 { RowsApart(width, y1, py); }
  }

  lemma RowAddedAt(b: seq<u32>, b1: seq<u32>, b2: seq<u32>, width: nat, height: nat, brush: Brush, x: int, y: int,
      x0: nat, y0: nat, w0: nat, n: nat, px: nat, py: nat)
    requires |b| == |b1| == width * height && x0 + w0 <= width && y0 + n < height && px < width && py < height
    requires Drawn(b, b1, width, height, brush, x, y, x0, y0, w0, n)
    requires RowDrawn(b1, b2, (y0 + n) * width + x0, w0, brush, x0 - x, y0 + n - y)
    ensures At(b2, width, height, px, py) ==
            if Within(px, x0, w0) && Within(py, y0, n + 1) && Ink(brush, px - x, py - y).Some?
            then Ink(brush, px - x, py - y).value else At(b, width, height, px, py)
  {
    var i, o := py * width + px, (y0 + n) * width + x0;
    PlaceInRange(width, height, px, py);
    RowHit(width, px, py, x0, w0, y0 + n, i, o);
    assert At(b1, width, height, px, py) == b1[i] && At(b2, width, height, px, py) == b2[i];
  }

  /** Drawing one more row inside the screen. */
  lemma RowAdded(b: seq<u32>, b1: seq<u32>, b2: seq<u32>, width: nat, height: nat, brush: Brush, x: int, y: int,
      x0: nat, y0: nat, w0: nat, n: nat)
    requires |b| == |b1| == width * height && x0 + w0 <= width && y0 + n < height
    requires Drawn(b, b1, width, height, brush, x, y, x0, y0, w0, n)
    requires RowDrawn(b1, b2, (y0 + n) * width + x0, w0, brush, x0 - x, y0 + n - y)
    ensures Drawn(b, b2, width, height, brush, x, y, x0, y0, w0, n + 1)
  {
    forall px: nat, py: nat | px < width && py < height
      ensures At(b2, width, height, px, py) ==
        if Within(px, x0, w0) && Within(py, y0, n + 1) && Ink(brush, px - x, py - y).Some?
        then Ink(brush, px - x, py - y).value else At(b, width, height, px, py)
    {
      RowAddedAt(b, b1, b2, width, height, brush, x, y, x0, y0, w0, n, px, py);
    }
  }

  /** On the screen both rectangles cover the same pixels. */
  ghost predicate SameArea(width: nat, height: nat, x: int, y: int, w: int, h: int, x0: int, y0: int, w0: int, h0: int) {
    forall px: nat, py: nat {:trigger Within(px, x0, w0), Within(py, y0, h0)} :: px < width && py < height ==>
      (Within(px, x0, w0) && Within(py, y0, h0) <==> Within(px, x, w) && Within(py, y, h))
  }

  /** A rectangle cut to the screen shows the same pixels as the whole one. */
  lemma ClippedIsPaint(b: seq<u32>, b2: seq<u32>, width: nat, height: nat, brush: Brush, x: int, y: int, w: int, h: int,
      x0: int, y0: int, w0: int, h0: int)
    requires |b| == |b2| == width * height && Drawn(b, b2, width, height, brush, x, y, x0, y0, w0, h0)
    requires SameArea(width, height, x, y, w, h, x0, y0, w0, h0)
    ensures b2 == Paint(b, width, height, x, y, brush, Max0(w), Max0(h))
  {
    var whole := Paint(b, width, height, x, y, brush, Max0(w), Max0(h));
    forall px: nat, py: nat | px < width && py < height
      ensures At(b2, width, height, px, py) == At(whole, width, height, px, py)
    {
      PaintAt(b, width, height, x, y, brush, Max0(w), Max0(h), px, py);
      assert Within(px, x0, w0) && Within(py, y0, h0) <==> Within(px, x, w) && Within(py, y, h);
    }
    SamePixels(b2, whole, width, height);
  }

  /** A side of a rectangle whose clipping does not overflow 32 bits. */
  predicate SideOk(x: int32, w: int32, size: nat) {
    (x < 0 ==> -0x8000_0000 <= x + w) && (0 <= x < size && w > 0 ==> x + w < 0x8000_0000)
  }

  /** The side [x, x + w) cut to [0, size) is [x0, x0 + w0). */
  predicate CutSide(x: int, w: int, size: nat, x0: int, w0: int) {
    x0 == Max0(x) && w0 == if x + w > size then size - x0 else x + w - x0
  }

  predicate HiddenSide(x: int, w: int, size: nat) { w <= 0 || x + w <= 0 || x >= size || size == 0 }

  lemma CutArea(width: nat, height: nat, x: int, y: int, w: int, h: int, x0: int, y0: int, w0: int, h0: int)
    requires CutSide(x, w, width, x0, w0) && CutSide(y, h, height, y0, h0)
    ensures SameArea(width, height, x, y, w, h, x0, y0, w0, h0)
  {
    forall px: nat, py: nat | px < width && py < height
      ensures (Within(px, x0, w0) <==> Within(px, x, w)) && (Within(py, y0, h0) <==> Within(py, y, h))
    {}
  }

  lemma HiddenArea(width: nat, height: nat, x: int, y: int, w: int, h: int)
    requires HiddenSide(x, w, width) || HiddenSide(y, h, height)
    ensures SameArea(width, height, x, y, w, h, 0, 0, 0, 0)
  {
    forall px: nat, py: nat | px < width && py < height
      ensures !(Within(px, x, w) && Within(py, y, h)) && !Within(px, 0, 0)
    {}
  }

  predicate InSprite(src: seq<u32>, pitch: int, col: int, row: int) { 0 <= row * pitch + col < |src| }

  /** The sprite has every pixel of its rectangle that is on the screen. */
  ghost predicate SpriteOk(src: seq<u32>, pitch: int, width: nat, height: nat, x: int, y: int, w: int, h: int) {
    forall col: nat, row: nat :: col < w && row < h && 0 <= x + col < width && 0 <= y + row < height ==>
      InSprite(src, pitch, col, row)
  }

  class BackBuffer {
    const width: nat
    const height: nat
    const ready: bool
    const back: array<u32>

    ghost predicate Valid() {
      width < 0x8000_0000 && height < 0x8000_0000 && back.Length == width * height < 0x1_0000_0000
    }

    constructor (width: nat, height: nat, ready: bool)
      requires width < 0x8000_0000 && height < 0x8000_0000 && width * height < 0x1_0000_0000
      ensures Valid() && this.width == width && this.height == height && this.ready == ready && fresh(back)
    {
      this.width, this.height, this.ready := width, height, ready;
      back := new u32[width * height];
    }

    /** fb_put_pixel. */
    method PutPixel(x: int32, y: int32, c: u32)
      requires Valid()
      modifies back
      ensures back[..] == if ready then Plot(old(back[..]), width, height, x, y, Some(c)) else old(back[..])
    {
      if !ready { return; }
      if x < 0 || y < 0 || x >= width || y >= height { return; }
      PlaceInRange(width, height, x, y);
      back[y * width + x] := c;
    }

    method FillRow(o: nat, n: nat, c: u32, ghost col: int, ghost row: int)
      requires o + n <= back.Length
      modifies back
      ensures RowDrawn(old(back[..]), back[..], o, n, Solid(c), col, row)
    {
      for k := 0 to n
        invariant forall i :: 0 <= i < back.Length ==> back[i] == if o <= i < o + k then c else old(back[i])
      {
        back[o + k] := c;
      }
    }

    method BlitRow(o: nat, n: nat, src: seq<u32>, pitch: int, key: u32, col: int, row: int)
      requires o + n <= back.Length && forall i :: col <= i < col + n ==> InSprite(src, pitch, i, row)
      modifies back
      ensures RowDrawn(old(back[..]), back[..], o, n, Sprite(src, pitch, key), col, row)
    {
      var s := row * pitch + col;
      ghost var brush := Sprite(src, pitch, key);
      for k := 0 to n
        invariant forall i :: 0 <= i < back.Length ==>
          back[i] == if o <= i < o + k && Ink(brush, col + (i - o), row).Some? then Ink(brush, col + (i - o), row).value
                     else old(back[i])
      {
        assert InSprite(src, pitch, col + k, row);
        var px := src[s + k];
        if px != key { back[o + k] := px; }
      }
    }

    /** The rows of a rectangle inside the screen. */
    method FillRows(x0: nat, y0: nat, w0: nat, h0: nat, c: u32, ghost x: int, ghost y: int)
      requires Valid() && 0 < w0 && x0 + w0 <= width && y0 + h0 <= height
      modifies back
      ensures Drawn(old(back[..]), back[..], width, height, Solid(c), x, y, x0, y0, w0, h0)
    {
      ghost var b := back[..];
      for row := 0 to h0
        invariant Drawn(b, back[..], width, height, Solid(c), x, y, x0, y0, w0, row)
      {
        ghost var b1 := back[..];
        PlaceInRange(width, height, x0 + w0 - 1, y0 + row);
        FillRow((y0 + row) * width + x0, w0, c, x0 - x, y0 + row - y);
        RowAdded(b, b1, back[..], width, height, Solid(c), x, y, x0, y0, w0, row);
      }
    }

    method BlitRows(x0: nat, y0: nat, w0: nat, h0: nat, src: seq<u32>, pitch: int, key: u32, x: int, y: int)
      requires Valid() && 0 < w0 && x0 + w0 <= width && y0 + h0 <= height
      requires forall i, j :: x0 - x <= i < x0 - x + w0 && y0 - y <= j < y0 - y + h0 ==> InSprite(src, pitch, i, j)
      modifies back
      ensures Drawn(old(back[..]), back[..], width, height, Sprite(src, pitch, key), x, y, x0, y0, w0, h0)
    {
      ghost var b, brush := back[..], Sprite(src, pitch, key);
      for row := 0 to h0
        invariant Drawn(b, back[..], width, height, brush, x, y, x0, y0, w0, row)
      {
        ghost var b1 := back[..];
        PlaceInRange(width, height, x0 + w0 - 1, y0 + row);
        BlitRow((y0 + row) * width + x0, w0, src, pitch, key, x0 - x, y0 + row - y);
        RowAdded(b, b1, back[..], width, height, brush, x, y, x0, y0, w0, row);
      }
    }

    /** fb_fill_rect: the same buffer as plotting every pixel of the unclipped rectangle. */
    method FillRect(x: int32, y: int32, w: int32, h: int32, c: u32)
      requires Valid() && SideOk(x, w, width) && SideOk(y, h, height)
      modifies back
      ensures back[..] ==
              if ready then Paint(old(back[..]), width, height, x, y, Solid(c), Max0(w), Max0(h)) else old(back[..])
    {
      if !ready { return; }
      ghost var b := back[..];
      var x0: int32, y0: int32, w0: int32, h0: int32 := x, y, w, h;
      if x0 < 0 { w0 := w0 + x0; x0 := 0; }
      if y0 < 0 { h0 := h0 + y0; y0 := 0; }
      if w0 <= 0 || h0 <= 0 || x0 >= width || y0 >= height {
        HiddenArea(width, height, x, y, w, h);
        ClippedIsPaint(b, b, width, height, Solid(c), x, y, w, h, 0, 0, 0, 0);
        return;
      }
      if x0 + w0 > width { w0 := width - x0; }
      if y0 + h0 > height { h0 := height - y0; }
      FillRows(x0, y0, w0, h0, c, x, y);
      CutArea(width, height, x, y, w, h, x0, y0, w0, h0);
      ClippedIsPaint(b, back[..], width, height, Solid(c), x, y, w, h, x0, y0, w0, h0);
    }

    /** fb_blit_keyed: the same buffer as plotting every pixel of the sprite but those of the
        key colour. */
    method BlitKeyed(src: seq<u32>, pitch: int32, x: int32, y: int32, w: int32, h: int32, key: u32)
      requires Valid() && SideOk(x, w, width) && SideOk(y, h, height)
      requires SpriteOk(src, pitch, width, height, x, y, w, h)
      modifies back
      ensures back[..] ==
              if ready then Paint(old(back[..]), width, height, x, y, Sprite(src, pitch, key), Max0(w), Max0(h))
              else old(back[..])
    {
      if !ready { return; }
      ghost var b, brush := back[..], Sprite(src, pitch, key);
      var sx, sy := 0, 0;
      var x0: int32, y0: int32, w0: int32, h0: int32 := x, y, w, h;
      if x0 < 0 { sx := sx - x0; w0 := w0 + x0; x0 := 0; }
      if y0 < 0 { sy := sy - y0; h0 := h0 + y0; y0 := 0; }
      if w0 <= 0 || h0 <= 0 || x0 >= width || y0 >= height {
        HiddenArea(width, height, x, y, w, h);
        ClippedIsPaint(b, b, width, height, brush, x, y, w, h, 0, 0, 0, 0);
        return;
      }
      if x0 + w0 > width { w0 := width - x0; }
      if y0 + h0 > height { h0 := height - y0; }
      assert sx == x0 - x && sy == y0 - y;
      BlitRows(x0, y0, w0, h0, src, pitch, key, x0 - sx, y0 - sy);
      CutArea(width, height, x, y, w, h, x0, y0, w0, h0);
      ClippedIsPaint(b, back[..], width, height, brush, x, y, w, h, x0, y0, w0, h0);
    }
  }
}
