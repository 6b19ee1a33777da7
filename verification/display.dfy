/**
  The renderer: the machine's monochrome framebuffer is scaled up by an
  integer factor into the host window's surface, a row-major array of 32-bit
  colours. Every framebuffer pixel becomes a DISPLAY_SCALE x DISPLAY_SCALE
  block of ON_COLOR or OFF_COLOR.
 */
module Display {

  /** A 32-bit colour value of the surface. */
  type Color = x: int | 0 <= x < 0x1_0000_0000

  /** Framebuffer size of the machine: MAX_WIDTH columns, MAX_HEIGHT rows. */
  const MAX_WIDTH: nat := 64
  const MAX_HEIGHT: nat := 32

  const DISPLAY_SCALE: nat := 10
  const ON_COLOR: Color := 0x00FF00
  const OFF_COLOR: Color := 0x000000

  /** Size of the window the renderer draws into. */
  const SURFACE_WIDTH: nat := MAX_WIDTH * DISPLAY_SCALE
  const SURFACE_HEIGHT: nat := MAX_HEIGHT * DISPLAY_SCALE

  /** A host surface of `w` x `h` pixels stored row by row, one colour per
      pixel with no padding between rows. */
  datatype Surface = Surface(w: nat, h: nat, pixels: seq<Color>)

  predicate WellSized(s: Surface) {
    |s.pixels| == s.w * s.h
  }

  /** The framebuffer: MAX_HEIGHT rows of MAX_WIDTH pixels, indexed
      `display[y][x]`. */
  predicate IsFramebuffer(display: seq<seq<bool>>) {
    |display| == MAX_HEIGHT &&
    forall y :: 0 <= y < |display| ==> |display[y]| == MAX_WIDTH
  }

  function ColorOf(on: bool): Color {
    if on then ON_COLOR else OFF_COLOR
  }

  /** b * c exceeds a * c by at least c when a < b. */
  lemma {:induction false} MulStep(a: nat, b: nat, c: nat)
    ensures a < b ==> a * c + c <= b * c
  {
    if a + 1 < b {
      MulStep(a, b - 1, c);
      assert (b - 1) * c + c == b * c;
    } else if a + 1 == b {
      assert a * c + c == b * c;
    }
  }

  /** The row-major position of an in-bounds pixel (x, y) of a surface; it
      lies inside the pixel array. */
  function Index(s: Surface, x: nat, y: nat): (i: nat)
    requires WellSized(s)
    requires x < s.w && y < s.h
    ensures i < |s.pixels|
  {
    MulStep(y, s.h, s.w);
    y * s.w + x
  }

  /** Distinct in-bounds pixels have distinct row-major positions. */
  lemma IndexInjective(s: Surface, x1: nat, y1: nat, x2: nat, y2: nat)
    requires WellSized(s)
    requires x1 < s.w && y1 < s.h && x2 < s.w && y2 < s.h
    ensures Index(s, x1, y1) == Index(s, x2, y2) ==> x1 == x2 && y1 == y2
  {
    MulStep(y1, y2, s.w);
    MulStep(y2, y1, s.w);
  }

  /** The colour of pixel (x, y) of a surface. */
  function Pixel(s: Surface, x: nat, y: nat): Color
    requires WellSized(s)
    requires x < s.w && y < s.h
  {
    s.pixels[Index(s, x, y)]
  }

  /** Writes one pixel: pixel (x, y) takes the on or off colour and every
      other pixel of the surface keeps its colour. */
  function SetPixel(s: Surface, x: nat, y: nat, on: bool): (r: Surface)
    requires WellSized(s)
    requires x < s.w && y < s.h
    ensures r.w == s.w && r.h == s.h && WellSized(r)
    ensures Pixel(r, x, y) == ColorOf(on)
    ensures forall x': nat, y': nat :: x' < s.w && y' < s.h && (x' != x || y' != y) ==>
      Pixel(r, x', y') == Pixel(s, x', y')
  {
    var r := s.(pixels := s.pixels[Index(s, x, y) := ColorOf(on)]);
    assert forall x': nat, y': nat :: x' < s.w && y' < s.h && (x' != x || y' != y) ==>
      Pixel(r, x', y') == Pixel(s, x', y') by {
      forall x': nat, y': nat | x' < s.w && y' < s.h && (x' != x || y' != y)
        ensures Pixel(r, x', y') == Pixel(s, x', y')
      {
        IndexInjective(s, x', y', x, y);
      }
    }
    r
  }

  /** The colour the upscaled framebuffer gives surface pixel (x, y). */
  function Shade(display: seq<seq<bool>>, x: nat, y: nat): Color
    requires IsFramebuffer(display)
    requires x < SURFACE_WIDTH && y < SURFACE_HEIGHT
  {
    ColorOf(display[y / DISPLAY_SCALE][x / DISPLAY_SCALE])
  }

  /** Reads the framebuffer back from a rendered surface by sampling the
      top-left surface pixel of every block. */
  function Downscale(s: Surface): (display: seq<seq<bool>>)
    requires WellSized(s)
    requires SURFACE_WIDTH <= s.w && SURFACE_HEIGHT <= s.h
    ensures IsFramebuffer(display)
  {
    seq(MAX_HEIGHT, y requires 0 <= y < MAX_HEIGHT =>
      seq(MAX_WIDTH, x requires 0 <= x < MAX_WIDTH =>
        Pixel(s, x * DISPLAY_SCALE, y * DISPLAY_SCALE) == ON_COLOR))
  }

  /** Surface pixel (X, Y) belongs to the DISPLAY_SCALE x DISPLAY_SCALE
      block that stands for framebuffer pixel (x, y). */
  predicate InBlock(x: nat, y: nat, X: nat, Y: nat) {
    x * DISPLAY_SCALE <= X < x * DISPLAY_SCALE + DISPLAY_SCALE &&
    y * DISPLAY_SCALE <= Y < y * DISPLAY_SCALE + DISPLAY_SCALE
  }

  /** Fills the block that stands for framebuffer pixel (x, y) with its
      colour; every pixel outside the block keeps its colour. */
  method FillBlock(s: Surface, x: nat, y: nat, on: bool) returns (r: Surface)
    requires WellSized(s)
    requires x < MAX_WIDTH && y < MAX_HEIGHT
    requires SURFACE_WIDTH <= s.w && SURFACE_HEIGHT <= s.h
    ensures r.w == s.w && r.h == s.h && WellSized(r)
    ensures forall X: nat, Y: nat :: InBlock(x, y, X, Y) ==> Pixel(r, X, Y) == ColorOf(on)
    ensures forall X: nat, Y: nat :: (X < s.w && Y < s.h && !InBlock(x, y, X, Y)) ==>
      Pixel(r, X, Y) == Pixel(s, X, Y)
  {
    var x0, y0 := x * DISPLAY_SCALE, y * DISPLAY_SCALE;
    r := s;
    var i := 0;
    while i < DISPLAY_SCALE
      invariant 0 <= i <= DISPLAY_SCALE
      invariant r.w == s.w && r.h == s.h && WellSized(r)
      invariant forall X: nat, Y: nat :: (InBlock(x, y, X, Y) && Y < y0 + i) ==>
        Pixel(r, X, Y) == ColorOf(on)
      invariant forall X: nat, Y: nat :: (X < s.w && Y < s.h && !(InBlock(x, y, X, Y) && Y < y0 + i)) ==>
        Pixel(r, X, Y) == Pixel(s, X, Y)
    {
      var row := y0 + i;
      var j := 0;
      while j < DISPLAY_SCALE
        invariant 0 <= j <= DISPLAY_SCALE
        invariant r.w == s.w && r.h == s.h && WellSized(r)
        invariant forall X: nat, Y: nat :: (InBlock(x, y, X, Y) && Y < row) ==>
          Pixel(r, X, Y) == ColorOf(on)
        invariant forall X: nat :: x0 <= X < x0 + j ==> Pixel(r, X, row) == ColorOf(on)
        invariant forall X: nat, Y: nat ::
          (X < s.w && Y < s.h && !(InBlock(x, y, X, Y) && Y < row) && !(x0 <= X < x0 + j && Y == row)) ==>
          Pixel(r, X, Y) == Pixel(s, X, Y)
      {
        r := SetPixel(r, x0 + j, row, on);
        j := j + 1;
      }
      i := i + 1;
    }
  }

  /** Renders the framebuffer: every surface pixel (X, Y) of the window
      area takes the colour of framebuffer pixel (X / DISPLAY_SCALE,
      Y / DISPLAY_SCALE), pixels beyond the window area keep their colour,
      and sampling the result gives back the framebuffer. */
  method DrawDisplay(s: Surface, display: seq<seq<bool>>) returns (r: Surface)
    requires WellSized(s)
    requires SURFACE_WIDTH <= s.w && SURFACE_HEIGHT <= s.h
    requires IsFramebuffer(display)
    ensures r.w == s.w && r.h == s.h && WellSized(r)
    ensures forall X: nat, Y: nat :: X < SURFACE_WIDTH && Y < SURFACE_HEIGHT ==>
      Pixel(r, X, Y) == Shade(display, X, Y)
    ensures forall X: nat, Y: nat :: (X < s.w && Y < s.h && (SURFACE_WIDTH <= X || SURFACE_HEIGHT <= Y)) ==>
      Pixel(r, X, Y) == Pixel(s, X, Y)
    ensures Downscale(r) == display
  {
    r := s;
    var y := 0;
    while y < MAX_HEIGHT
      invariant 0 <= y <= MAX_HEIGHT
      invariant r.w == s.w && r.h == s.h && WellSized(r)
      invariant forall X: nat, Y: nat :: X < SURFACE_WIDTH && Y < y * DISPLAY_SCALE ==>
        Pixel(r, X, Y) == Shade(display, X, Y)
      invariant forall X: nat, Y: nat :: (X < s.w && Y < s.h && (SURFACE_WIDTH <= X || y * DISPLAY_SCALE <= Y)) ==>
        Pixel(r, X, Y) == Pixel(s, X, Y)
    {
      var top, bottom := y * DISPLAY_SCALE, y * DISPLAY_SCALE + DISPLAY_SCALE;
      var x := 0;
      while x < MAX_WIDTH
        invariant 0 <= x <= MAX_WIDTH
        invariant r.w == s.w && r.h == s.h && WellSized(r)
        invariant forall X: nat, Y: nat :: X < SURFACE_WIDTH && Y < top ==>
          Pixel(r, X, Y) == Shade(display, X, Y)
        invariant forall X: nat, Y: nat :: (X < x * DISPLAY_SCALE && top <= Y < bottom) ==>
          Pixel(r, X, Y) == Shade(display, X, Y)
        invariant forall X: nat, Y: nat ::
          (X < s.w && Y < s.h && (SURFACE_WIDTH <= X || bottom <= Y || (x * DISPLAY_SCALE <= X && top <= Y))) ==>
          Pixel(r, X, Y) == Pixel(s, X, Y)
      {
        BlockShade(display, x, y);
        r := FillBlock(r, x, y, display[y][x]);
        x := x + 1;
      }
      y := y + 1;
    }
    var back := Downscale(r);
    forall yy | 0 <= yy < MAX_HEIGHT
      ensures back[yy] == display[yy]
    {
      forall xx | 0 <= xx < MAX_WIDTH
        ensures back[yy][xx] == display[yy][xx]
      {
        BlockShade(display, xx, yy);
      }
    }
  }

  /** Every surface pixel of the block for framebuffer pixel (x, y) is
      shaded with that pixel's colour. */
  lemma BlockShade(display: seq<seq<bool>>, x: nat, y: nat)
    requires IsFramebuffer(display)
    requires x < MAX_WIDTH && y < MAX_HEIGHT
    ensures forall X: nat, Y: nat :: InBlock(x, y, X, Y) ==> Shade(display, X, Y) == ColorOf(display[y][x])
  {
  }
}
