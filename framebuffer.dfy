/**
 * The kernel's framebuffers: 32-bit pixels in rows `pitch` bytes apart.
 * `main_buffer` is the screen, `double_buffer` a copy of its description
 * over memory of its own, and windows draw into buffers from fb_alloc.
 * A buffer's memory is modelled as rows of pixels, so that moving a row
 * pointer on by `pitch` bytes is moving to the next row.
 */
module Framebuffer {
  import opened Common
  import Arith

  type Color = u32

  /** The only pixel size fb_init accepts: it panics on any other. */
  const PIXEL_SIZE: nat := 4

  /**
   * `struct FrameBuffer`: the pixel memory at `addr` and its description.
   * The struct is copied by value (double_buffer = main_buffer); the
   * pixels are shared through `pixels`.
   */
  datatype FrameBuffer = FrameBuffer(pixels: array2<Color>, width: int, height: int, pitch: int, bytesPerPixel: int)

  /** A buffer of `height` rows of `pitch / 4` pixels, of which the first `width` are on screen. */
  predicate Valid(fb: FrameBuffer)
  {
    fb.bytesPerPixel == PIXEL_SIZE && 0 <= fb.width <= fb.pixels.Length1 && fb.height == fb.pixels.Length0
    && fb.pitch == PIXEL_SIZE * fb.pixels.Length1
  }

  // ---- Colours ----

  /**
   * make_color: blue in bits 0-7, green in 8-15 and red in 16-23. Each
   * component is masked to its own byte, so the three `|` add up.
   */
  function MakeColor(r: u8, g: u8, b: u8): Color
  {
    b + g * 0x100 + r * 0x10000
  }

  function Red(c: Color): u8 { c / 0x10000 % 0x100 }
  function Green(c: Color): u8 { c / 0x100 % 0x100 }
  function Blue(c: Color): u8 { c % 0x100 }

  /** Each component comes back out of the colour, and the top byte stays 0. */
  lemma ColorComponents(r: u8, g: u8, b: u8)
    ensures MakeColor(r, g, b) < 0x100_0000
    ensures Red(MakeColor(r, g, b)) == r && Green(MakeColor(r, g, b)) == g && Blue(MakeColor(r, g, b)) == b
  {
    var c := MakeColor(r, g, b);
    Arith.DivModUnique(c, 0x100, g + r * 0x100, b);
    Arith.DivModUnique(g + r * 0x100, 0x100, r, g);
    Arith.DivModUnique(c, 0x10000, r, b + g * 0x100);
    Arith.DivModUnique(r, 0x100, 0, r);
  }

  /** A colour is made of its three components. */
  lemma ColorFromComponents(c: Color)
    requires c < 0x100_0000
    ensures MakeColor(Red(c), Green(c), Blue(c)) == c
  {
    Arith.DivModUnique(c / 0x100, 0x100, c / 0x10000, Green(c)) by {
      Arith.DivModUnique(c, 0x10000, c / 0x100 / 0x100, c / 0x100 % 0x100 * 0x100 + c % 0x100);
    }
    Arith.DivModUnique(c / 0x10000, 0x100, 0, c / 0x10000);
  }

  // ---- Pixel offsets ----

  /** fb_offset as written: `pitch * y + bytesPerPixel * x`, with no bounds check. */
  function OffsetAsWritten(fb: FrameBuffer, x: int, y: int): int
  {
    fb.pitch * y + fb.bytesPerPixel * x
  }

  /**
   * The pixel one past the end of a row gets the offset of the first pixel
   * of the next row, where the header promises -1.
   */
  lemma OffsetPastRowWraps(fb: FrameBuffer)
    requires Valid(fb) && fb.width == fb.pixels.Length1 && fb.height >= 2
    ensures OffsetAsWritten(fb, fb.width, 0) == OffsetAsWritten(fb, 0, 1) != -1
  {
  }

  predicate OnScreen(fb: FrameBuffer, x: int, y: int)
  {
    0 <= x < fb.width && 0 <= y < fb.height
  }

  /** fb_offset as its header describes it: -1 for a pixel out of bounds. */
  function Offset(fb: FrameBuffer, x: int, y: int): int
  {
    if OnScreen(fb, x, y) then fb.pitch * y + fb.bytesPerPixel * x else -1
  }

  /** Offsets are -1 exactly off the screen, and an offset names exactly one pixel. */
  lemma OffsetNamesPixel(fb: FrameBuffer, x: int, y: int)
    requires Valid(fb)
    ensures Offset(fb, x, y) == -1 <==> !OnScreen(fb, x, y)
    ensures OnScreen(fb, x, y) ==>
      Offset(fb, x, y) / fb.pitch == y && Offset(fb, x, y) % fb.pitch / fb.bytesPerPixel == x
  {
    if OnScreen(fb, x, y) {
      Arith.DivModUnique(Offset(fb, x, y), fb.pitch, y, PIXEL_SIZE * x);
      Arith.DivModUnique(PIXEL_SIZE * x, PIXEL_SIZE, x, 0);
    }
  }

  // ---- Allocation ----

  /**
   * fb_alloc(width, height): `pixelsGranted` and `structGranted` are what
   * the two kmalloc calls return. When the second fails the pixel memory is
   * given back (`freed`) and NULL returned; otherwise the buffer takes the
   * screen's pixel size and rows of exactly `width` pixels.
   */
  method Alloc(width: nat, height: nat, mainBytesPerPixel: int, pixelsGranted: bool, structGranted: bool)
    returns (fb: Option<FrameBuffer>, freed: bool)
    requires mainBytesPerPixel == PIXEL_SIZE
    ensures fb.None? <==> !(pixelsGranted && structGranted)
    ensures freed <==> pixelsGranted && !structGranted
    ensures fb.Some? ==> fresh(fb.value.pixels) && Valid(fb.value)
    ensures fb.Some? ==> fb.value.width == width && fb.value.height == height
    ensures fb.Some? ==> fb.value.pitch == width * mainBytesPerPixel && fb.value.bytesPerPixel == mainBytesPerPixel
  {
    if !pixelsGranted {
      return None, false;
    }
    var addr := new Color[height, width];
    if !structGranted {
      return None, true;
    }
    fb := Some(FrameBuffer(addr, width, height, width * mainBytesPerPixel, mainBytesPerPixel));
    freed := false;
  }

  // ---- Copies ----

  /** The part of a `width` by `height` rectangle at (x, y) that lies on a `screenW` by `screenH` screen. */
  predicate Clipped(c: int, r: int, x: int, y: int, width: int, height: int, screenW: int, screenH: int)
  {
    0 <= c < screenW && 0 <= r < screenH && x <= c < x + width && y <= r < y + height
  }

  /**
   * The row loop shared by fb_blit and screen_update: for j from 0 below
   * `width`, columns left of the screen are skipped and the first one past
   * its right edge ends the row; dest pixel (x + j, row) takes source
   * pixel (start + j, srcRow).
   */
  method CopyRow(dest: array2<Color>, row: int, src: array2<Color>, srcRow: int, start: int, x: int, width: int, screenW: int)
    requires dest != src
    requires 0 <= row < dest.Length0 && 0 <= screenW <= dest.Length1 && 0 <= srcRow < src.Length0
    requires 0 <= start + (if x < 0 then 0 else x) - x
    requires start + screenW - x <= src.Length1 || start + width <= src.Length1
    modifies dest
    ensures forall r, c :: 0 <= r < dest.Length0 && 0 <= c < dest.Length1 ==>
      dest[r, c] == if r == row && 0 <= c < screenW && x <= c < x + width then src[srcRow, start + c - x] else old(dest[r, c])
  {
    var j := 0;
    while j < width
      invariant 0 <= j && (j <= width || j == 0)
      invariant forall r, c :: 0 <= r < dest.Length0 && 0 <= c < dest.Length1 ==>
        dest[r, c] == if r == row && 0 <= c < screenW && x <= c < x + j then src[srcRow, start + c - x] else old(dest[r, c])
    {
      if x + j < 0 {
        j := j + 1;
        continue;
      }
      if x + j >= screenW {
        break;
      }
      dest[row, x + j] := src[srcRow, start + j];
      j := j + 1;
    }
  }

  /**
   * fb_blit(dest, src, x, y, width, height): source pixel (j, i) goes to
   * dest pixel (x + j, y + i) when that lies on dest; no other dest pixel
   * changes. The rectangle must lie within the source buffer.
   */
  method Blit(dest: FrameBuffer, src: FrameBuffer, x: int, y: int, width: int, height: int)
    requires Valid(dest) && Valid(src) && dest.pixels != src.pixels
    requires width <= src.pixels.Length1 && height <= src.pixels.Length0
    modifies dest.pixels
    ensures forall r, c :: 0 <= r < dest.height && 0 <= c < dest.pixels.Length1 ==>
      dest.pixels[r, c] == if Clipped(c, r, x, y, width, height, dest.width, dest.height)
        then src.pixels[r - y, c - x] else old(dest.pixels[r, c])
  {
    var i := 0;
    while i < height
      invariant 0 <= i && (i <= height || i == 0)
      invariant forall r, c :: 0 <= r < dest.height && 0 <= c < dest.pixels.Length1 ==>
        dest.pixels[r, c] == if Clipped(c, r, x, y, width, i, dest.width, dest.height)
          then src.pixels[r - y, c - x] else old(dest.pixels[r, c])
    {
      if y + i >= dest.height {
        break;
      }
      if y + i >= 0 {
        CopyRow(dest.pixels, y + i, src.pixels, i, 0, x, width, dest.width);
      }
      i := i + 1;
    }
  }

  /**
   * screen_update(x, y, width, height): the part of the rectangle that
   * lies on the screen is copied from the double buffer to the screen; no
   * other screen pixel changes.
   */
  method ScreenUpdate(main: FrameBuffer, double: FrameBuffer, x: int, y: int, width: int, height: int)
    requires Valid(main) && Valid(double) && main.pixels != double.pixels
    requires double.width == main.width && double.height == main.height && double.pitch == main.pitch
    modifies main.pixels
    ensures forall r, c :: 0 <= r < main.height && 0 <= c < main.pixels.Length1 ==>
      main.pixels[r, c] == if Clipped(c, r, x, y, width, height, main.width, main.height)
        then double.pixels[r, c] else old(main.pixels[r, c])
  {
    var i := 0;
    while i < height
      invariant 0 <= i && (i <= height || i == 0)
      invariant forall r, c :: 0 <= r < main.height && 0 <= c < main.pixels.Length1 ==>
        main.pixels[r, c] == if Clipped(c, r, x, y, width, i, main.width, main.height)
          then double.pixels[r, c] else old(main.pixels[r, c])
    {
      if y + i >= main.height {
        break;
      }
      if y + i >= 0 {
        CopyRow(main.pixels, y + i, double.pixels, y + i, x, x, width, main.width);
      }
      i := i + 1;
    }
  }
}
