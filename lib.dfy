/** The pixel grid of the crate root: buffer sizes and positions, the mapping
    from a pointer position in the window to a buffer pixel, the row-major byte
    offset of a pixel, and the CPU-side RGBA pixel buffer itself. */
module Lib {
  import opened Machine

  datatype PixelBufferSize = PixelBufferSize(width: u32, height: u32)

  datatype PixelPosition = PixelPosition(x: u32, y: u32)

  /** The window's inner size in device pixels (winit's `PhysicalSize<u32>`). */
  datatype PhysicalSize = PhysicalSize(width: u32, height: u32)

  /** A colour as the four bytes `(channel * 255.0).floor() as u8` gives. */
  datatype Color = Color(r: byte, g: byte, b: byte, a: byte) {
    function Bytes(): seq<byte> {
      [r, g, b, a]
    }
  }

  const RED := Color(255, 0, 0, 255)
  const GREEN := Color(0, 255, 0, 255)

  // ---------------------------------------------------------------------------
  // Arithmetic facts the geometry below rests on
  // ---------------------------------------------------------------------------

  lemma MulMonotone(s: nat, a: int, b: int)
    requires a <= b
    ensures s * a <= s * b
  {
    assert s * b - s * a == s * (b - a);
  }

  /** `a / s` names the scaled cell that holds `a`. */
  lemma DivBounds(a: nat, s: nat)
    requires s > 0
    ensures s * (a / s) <= a < s * (a / s) + s
    ensures a < s * (a / s + 1)
  {
  }

  /** `a / s` is the one `q` whose scaled cell `[s*q, s*q + s)` holds `a`. */
  lemma DivFromBounds(a: nat, s: nat, q: int)
    requires s > 0 && s * q <= a < s * q + s
    ensures a / s == q
  {
    DivBounds(a, s);
    if a / s < q {
      MulMonotone(s, a / s + 1, q);
    } else if a / s > q {
      MulMonotone(s, q + 1, a / s);
    }
  }

  lemma DivAtLeast(a: nat, s: nat, k: int)
    requires s > 0
    ensures a / s >= k <==> a >= s * k
  {
    DivBounds(a, s);
    if a / s >= k {
      MulMonotone(s, k, a / s);
    } else {
      MulMonotone(s, a / s + 1, k);
    }
  }

  // ---------------------------------------------------------------------------
  // Pointer position to buffer pixel (lib.rs:27-48)
  // ---------------------------------------------------------------------------

  /** The integer upscale factor: the larger of the two per-axis quotients of
      window by buffer, each raised to at least 1. */
  function Scale(window: PhysicalSize, buffer: PixelBufferSize): u32
    requires buffer.width > 0 && buffer.height > 0
  {
    Max(Max(Div(window.width, buffer.width), 1), Max(Div(window.height, buffer.height), 1))
  }

  /** The window's extent measured in buffer pixels at that scale. */
  function DisplayWidth(window: PhysicalSize, buffer: PixelBufferSize): u32
    requires buffer.width > 0 && buffer.height > 0
  {
    Div(window.width, Scale(window, buffer))
  }

  function DisplayHeight(window: PhysicalSize, buffer: PixelBufferSize): u32
    requires buffer.width > 0 && buffer.height > 0
  {
    Div(window.height, Scale(window, buffer))
  }

  /** The centering terms are defined: no divisor is zero and the display is
      nowhere wider or taller than the buffer, so `buffer - display` does not
      underflow. */
  predicate Centers(window: PhysicalSize, buffer: PixelBufferSize) {
    buffer.width > 0 && buffer.height > 0 &&
    DisplayWidth(window, buffer) <= buffer.width &&
    DisplayHeight(window, buffer) <= buffer.height
  }

  /** The centering offsets added to the scaled-down pointer. */
  function MarginX(window: PhysicalSize, buffer: PixelBufferSize): u32
    requires Centers(window, buffer)
  {
    (buffer.width - DisplayWidth(window, buffer)) / 2
  }

  function MarginY(window: PhysicalSize, buffer: PixelBufferSize): u32
    requires Centers(window, buffer)
  {
    (buffer.height - DisplayHeight(window, buffer)) / 2
  }

  /** Neither `pointer / scale + margin` sum overflows u32. */
  predicate Fits(rx: u32, ry: u32, window: PhysicalSize, buffer: PixelBufferSize)
    requires Centers(window, buffer)
  {
    rx / Scale(window, buffer) + MarginX(window, buffer) < U32_LIMIT &&
    ry / Scale(window, buffer) + MarginY(window, buffer) < U32_LIMIT
  }

  /** The pointer's candidate buffer coordinates and the display extents, before
      the edge test. */
  datatype Projection = Projection(x: u32, y: u32, width: u32, height: u32)

  /** The arithmetic of lib.rs:31-41 in its evaluation order, panicking where a
      debug build panics. */
  function Project(rx: u32, ry: u32, window: PhysicalSize, buffer: PixelBufferSize): Outcome<Projection> {
    var quotientX :- CheckedDiv(window.width, buffer.width);
    var quotientY :- CheckedDiv(window.height, buffer.height);
    var scale := Max(Max(quotientX, 1), Max(quotientY, 1));
    var width := Div(window.width, scale);
    var height := Div(window.height, scale);
    var spareX :- CheckedSub(buffer.width, width);
    var x :- CheckedAdd(Div(rx, scale), spareX / 2);
    var spareY :- CheckedSub(buffer.height, height);
    var y :- CheckedAdd(Div(ry, scale), spareY / 2);
    Done(Projection(x, y, width, height))
  }

  /** What the arithmetic computes: a zero buffer dimension is the only
      division by zero, a display larger than the buffer underflows, and
      otherwise the pointer is scaled down and shifted by the margins. */
  lemma ProjectMeaning(rx: u32, ry: u32, window: PhysicalSize, buffer: PixelBufferSize)
    ensures var r := Project(rx, ry, window, buffer);
      (r == Panic(DivideByZero) <==> buffer.width == 0 || buffer.height == 0) &&
      (r == Panic(SubtractOverflow) ==> !Centers(window, buffer)) &&
      (r.Panic? ==> r.fault == DivideByZero || r.fault == SubtractOverflow || r.fault == AddOverflow) &&
      (r.Done? <==> Centers(window, buffer) && Fits(rx, ry, window, buffer)) &&
      (r.Done? ==>
        r.value.width == DisplayWidth(window, buffer) &&
        r.value.height == DisplayHeight(window, buffer) &&
        r.value.x == rx / Scale(window, buffer) + MarginX(window, buffer) &&
        r.value.y == ry / Scale(window, buffer) + MarginY(window, buffer))
  {
  }

  /** `physical_to_pixel_pos` on an already floored pointer position. The two
      runtime assertions of the source are discharged by the verifier. */
  function PhysicalToPixelPos(rx: u32, ry: u32, window: PhysicalSize, buffer: PixelBufferSize): (r: Outcome<Option<PixelPosition>>)
    ensures r == Panic(DivideByZero) <==> buffer.width == 0 || buffer.height == 0
    ensures r == Panic(SubtractOverflow) ==> !Centers(window, buffer)
    ensures r.Panic? ==> r.fault == DivideByZero || r.fault == SubtractOverflow || r.fault == AddOverflow
    ensures r.Done? <==> Centers(window, buffer) && Fits(rx, ry, window, buffer)
    ensures r.Done? && r.value.Some? ==>
      r.value.value.x <= DisplayWidth(window, buffer) <= buffer.width &&
      r.value.value.y <= DisplayHeight(window, buffer) <= buffer.height
  {
    ProjectMeaning(rx, ry, window, buffer);
    var pos :- Project(rx, ry, window, buffer);
    if pos.x > pos.width || pos.y > pos.height then
      Done(None)
    else
      assert pos.x <= buffer.width;
      assert pos.y <= buffer.height;
      Done(Some(PixelPosition(pos.x, pos.y)))
  }

  /** Every accepted pointer lies in the `scale x scale` screen cell of the
      pixel it is mapped to, counted from the margin. */
  lemma MappedPointerLiesInCell(rx: u32, ry: u32, window: PhysicalSize, buffer: PixelBufferSize, p: PixelPosition)
    requires PhysicalToPixelPos(rx, ry, window, buffer) == Done(Some(p))
    ensures Centers(window, buffer)
    ensures MarginX(window, buffer) <= p.x <= DisplayWidth(window, buffer)
    ensures MarginY(window, buffer) <= p.y <= DisplayHeight(window, buffer)
    ensures Scale(window, buffer) * (p.x - MarginX(window, buffer)) <= rx
            < Scale(window, buffer) * (p.x - MarginX(window, buffer) + 1)
    ensures Scale(window, buffer) * (p.y - MarginY(window, buffer)) <= ry
            < Scale(window, buffer) * (p.y - MarginY(window, buffer) + 1)
  {
    ProjectMeaning(rx, ry, window, buffer);
    var s := Scale(window, buffer);
    DivBounds(rx, s);
    DivBounds(ry, s);
    assert p.x == rx / s + MarginX(window, buffer);
    assert p.y == ry / s + MarginY(window, buffer);
  }

  /** Conversely, every pointer in the cell of a pixel between the margin and
      the inclusive display edge is mapped to that pixel. */
  lemma CellPointerMapsBack(rx: u32, ry: u32, window: PhysicalSize, buffer: PixelBufferSize, p: PixelPosition)
    requires Centers(window, buffer)
    requires MarginX(window, buffer) <= p.x <= DisplayWidth(window, buffer)
    requires MarginY(window, buffer) <= p.y <= DisplayHeight(window, buffer)
    requires Scale(window, buffer) * (p.x - MarginX(window, buffer)) <= rx
             < Scale(window, buffer) * (p.x - MarginX(window, buffer) + 1)
    requires Scale(window, buffer) * (p.y - MarginY(window, buffer)) <= ry
             < Scale(window, buffer) * (p.y - MarginY(window, buffer) + 1)
    ensures PhysicalToPixelPos(rx, ry, window, buffer) == Done(Some(p))
  {
    DivFromBounds(rx, Scale(window, buffer), p.x - MarginX(window, buffer));
    DivFromBounds(ry, Scale(window, buffer), p.y - MarginY(window, buffer));
  }

  /** With no panic, the pointer is rejected exactly when it lies at or beyond
      the screen column (row) that follows the cell of the inclusive display
      edge. */
  lemma RejectedExactlyPastEdge(rx: u32, ry: u32, window: PhysicalSize, buffer: PixelBufferSize)
    requires Centers(window, buffer) && Fits(rx, ry, window, buffer)
    ensures PhysicalToPixelPos(rx, ry, window, buffer) == Done(None) <==>
      rx >= Scale(window, buffer) * (DisplayWidth(window, buffer) - MarginX(window, buffer) + 1) ||
      ry >= Scale(window, buffer) * (DisplayHeight(window, buffer) - MarginY(window, buffer) + 1)
  {
    DivAtLeast(rx, Scale(window, buffer), DisplayWidth(window, buffer) - MarginX(window, buffer) + 1);
    DivAtLeast(ry, Scale(window, buffer), DisplayHeight(window, buffer) - MarginY(window, buffer) + 1);
  }

  /** The 50x30 buffer of `run` has 6000 bytes; a window 800x600 over it has
      scale 20, display 40x30 and horizontal margin 5. */
  lemma DefaultWindowExamples()
    ensures Scale(PhysicalSize(800, 600), PixelBufferSize(50, 30)) == 20
    ensures DisplayWidth(PhysicalSize(800, 600), PixelBufferSize(50, 30)) == 40
    ensures DisplayHeight(PhysicalSize(800, 600), PixelBufferSize(50, 30)) == 30
    ensures MarginX(PhysicalSize(800, 600), PixelBufferSize(50, 30)) == 5
    ensures BufferLength(50, 30) == Done(6000)
  {
    assert Div(800, 50) == 16 && Div(600, 30) == 20;
  }

  /** In that window the centre of the window is the centre pixel, and the
      display's right edge column 40 is still accepted while the next
      physical column is not. */
  lemma DefaultWindowPointerExamples()
    ensures PhysicalToPixelPos(400, 300, PhysicalSize(800, 600), PixelBufferSize(50, 30)) == Done(Some(PixelPosition(25, 15)))
    ensures PhysicalToPixelPos(719, 0, PhysicalSize(800, 600), PixelBufferSize(50, 30)) == Done(Some(PixelPosition(40, 0)))
    ensures PhysicalToPixelPos(720, 0, PhysicalSize(800, 600), PixelBufferSize(50, 30)) == Done(None)
    ensures PhysicalToPixelPosInBuffer(719, 0, PhysicalSize(800, 600), PixelBufferSize(50, 30)) == Done(Some(PixelPosition(40, 0)))
  {
    var window, buffer := PhysicalSize(800, 600), PixelBufferSize(50, 30);
    DefaultWindowExamples();
    ProjectMeaning(400, 300, window, buffer);
    ProjectMeaning(719, 0, window, buffer);
    ProjectMeaning(720, 0, window, buffer);
  }

  /** Window 99x30 over a 50x30 buffer: scale 1, display width 99 > 50, so the
      centering subtraction underflows. */
  lemma NarrowWindowUnderflows(rx: u32, ry: u32)
    ensures PhysicalToPixelPos(rx, ry, PhysicalSize(99, 30), PixelBufferSize(50, 30)) == Panic(SubtractOverflow)
  {
  }

  /** Window 800x590 over the 50x30 buffer, inside the window's maximum size
      of 800x600: scale 19, display 42x31, and 31 > 30 rows, so the vertical
      centring subtraction underflows for every pointer position. */
  lemma TallWindowUnderflows(rx: u32, ry: u32)
    ensures PhysicalToPixelPos(rx, ry, PhysicalSize(800, 590), PixelBufferSize(50, 30)) == Panic(SubtractOverflow)
  {
    var window, buffer := PhysicalSize(800, 590), PixelBufferSize(50, 30);
    assert Div(800, 50) == 16 && Div(590, 30) == 19;
    assert Scale(window, buffer) == 19;
    assert Div(800, 19) == 42 && Div(590, 19) == 31;
  }

  /** The mapper with the edge test kept as written and one more test: a
      position outside the buffer (column `width` or row `height` of the
      buffer) names no pixel. Positions on the display edge that lie inside
      the buffer stay accepted. */
  function PhysicalToPixelPosInBuffer(rx: u32, ry: u32, window: PhysicalSize, buffer: PixelBufferSize): (r: Outcome<Option<PixelPosition>>)
    ensures r.Done? <==> Centers(window, buffer) && Fits(rx, ry, window, buffer)
    ensures r.Done? && r.value.Some? ==>
      r.value.value.x < buffer.width && r.value.value.y < buffer.height
  {
    ProjectMeaning(rx, ry, window, buffer);
    var pos :- Project(rx, ry, window, buffer);
    if pos.x > pos.width || pos.y > pos.height then Done(None)
    else if pos.x >= buffer.width || pos.y >= buffer.height then Done(None)
    else Done(Some(PixelPosition(pos.x, pos.y)))
  }

  /** The corrected mapper differs from the one as written exactly where the
      latter returns a position in column `width` or row `height` of the
      buffer, and there it returns no pixel. */
  lemma InBufferDiffersOnlyPastBuffer(rx: u32, ry: u32, window: PhysicalSize, buffer: PixelBufferSize)
    ensures var r := PhysicalToPixelPos(rx, ry, window, buffer);
      PhysicalToPixelPosInBuffer(rx, ry, window, buffer) != r <==>
        r.Done? && r.value.Some? &&
        (r.value.value.x == buffer.width || r.value.value.y == buffer.height)
    ensures PhysicalToPixelPosInBuffer(rx, ry, window, buffer) != PhysicalToPixelPos(rx, ry, window, buffer) ==>
      PhysicalToPixelPosInBuffer(rx, ry, window, buffer) == Done(None)
  {
  }

  // ---------------------------------------------------------------------------
  // Pixel position to byte offset (lib.rs:50-52)
  // ---------------------------------------------------------------------------

  /** The row-major offset of a pixel's first byte, four bytes per pixel. */
  function ByteOffset(p: PixelPosition, size: PixelBufferSize): nat {
    (p.x + p.y * size.width) * 4
  }

  /** `pixel_pos_to_index`: the u32 computation `(x + y * width) * 4`, which
      panics exactly when the offset does not fit in u32. */
  function PixelPosToIndex(p: PixelPosition, size: PixelBufferSize): (r: Outcome<u32>)
    ensures r.Done? <==> ByteOffset(p, size) < U32_LIMIT
    ensures r.Done? ==> r.value == ByteOffset(p, size) && r.value % 4 == 0
    ensures r.Panic? ==> r.fault == AddOverflow || r.fault == MultiplyOverflow
  {
    var row :- CheckedMul(p.y, size.width);
    var cell :- CheckedAdd(p.x, row);
    CheckedMul(cell, 4)
  }

  /** The pixel whose bytes start at `offset`. */
  function PositionAt(offset: u32, size: PixelBufferSize): (p: PixelPosition)
    requires size.width > 0
  {
    DivBounds(offset / 4, size.width);
    PixelPosition(offset / 4 % size.width, offset / 4 / size.width)
  }

  /** A pixel in a row of the buffer is recovered from its offset. */
  lemma ByteOffsetDecodes(p: PixelPosition, size: PixelBufferSize)
    requires p.x < size.width
    ensures ByteOffset(p, size) % 4 == 0
    ensures ByteOffset(p, size) < U32_LIMIT ==> PositionAt(ByteOffset(p, size), size) == p
  {
    var cell := p.x + p.y * size.width;
    assert ByteOffset(p, size) / 4 == cell;
    DivFromBounds(cell, size.width, p.y);
  }

  /** Every 4-aligned offset is the offset of the pixel it decodes to. */
  lemma PositionAtEncodes(offset: u32, size: PixelBufferSize)
    requires size.width > 0 && offset % 4 == 0
    ensures PositionAt(offset, size).x < size.width
    ensures ByteOffset(PositionAt(offset, size), size) == offset
  {
    var cell := offset / 4;
    assert cell == cell % size.width + cell / size.width * size.width;
  }

  /** Distinct pixels of a row-bounded domain have distinct offsets. */
  lemma ByteOffsetInjective(p: PixelPosition, q: PixelPosition, size: PixelBufferSize)
    requires p.x < size.width && q.x < size.width
    requires ByteOffset(p, size) == ByteOffset(q, size)
    ensures p == q
  {
    var cell := p.x + p.y * size.width;
    assert q.x + q.y * size.width == cell;
    DivFromBounds(cell, size.width, p.y);
    DivFromBounds(cell, size.width, q.y);
  }

  /** The last byte of the pixel is inside a `width * height * 4` buffer exactly
      when the pixel's row-major index is below `width * height`. */
  lemma ByteOffsetInBounds(p: PixelPosition, size: PixelBufferSize)
    ensures ByteOffset(p, size) + 3 < size.width * size.height * 4 <==>
            p.x + p.y * size.width < size.width * size.height
  {
  }

  /** Every pixel strictly inside the buffer has all four bytes in range. */
  lemma InsidePixelInBounds(p: PixelPosition, size: PixelBufferSize)
    requires p.x < size.width && p.y < size.height
    ensures ByteOffset(p, size) + 3 < size.width * size.height * 4
  {
    MulMonotone(size.width, p.y + 1, size.height);
    ByteOffsetInBounds(p, size);
  }

  // ---------------------------------------------------------------------------
  // The pixel buffer (lib.rs:11-14, 54-70)
  // ---------------------------------------------------------------------------

  /** The length `width * height * 4` that `PixelBuffer::new` computes in u32. */
  function BufferLength(width: u32, height: u32): (r: Outcome<u32>)
    ensures r.Done? <==> width * height * 4 < U32_LIMIT
    ensures r.Done? ==> r.value == width * height * 4 && r.value % 4 == 0
    ensures r.Panic? ==> r.fault == MultiplyOverflow
  {
    var area :- CheckedMul(width, height);
    CheckedMul(area, 4)
  }

  /** Every byte of `s` is the channel of `color` that its place in its pixel
      selects. */
  ghost predicate FilledWith(s: seq<byte>, color: Color) {
    forall i :: 0 <= i < |s| ==> s[i] == color.Bytes()[i % 4]
  }

  /** In a filled sequence, every 4-byte group is the colour's bytes. */
  lemma FilledPixel(s: seq<byte>, color: Color, k: nat)
    requires FilledWith(s, color) && 4 * k + 4 <= |s|
    ensures s[4 * k .. 4 * k + 4] == color.Bytes()
  {
    forall j | 0 <= j < 4
      ensures s[4 * k .. 4 * k + 4][j] == color.Bytes()[j]
    {
      assert s[4 * k .. 4 * k + 4][j] == s[4 * k + j];
      assert (4 * k + j) % 4 == j;
    }
  }

  class PixelBuffer {
    const size: PixelBufferSize
    const pixels: array<byte>

    /** The length invariant: `width * height * 4` bytes, a length that the u32
        arithmetic of the constructor could compute. */
    predicate Valid() {
      BufferLength(size.width, size.height) == Done(pixels.Length)
    }

    /** A zeroed vector of `width * height * 4` bytes filled with the colour,
        for a size whose byte count fits. */
    constructor (width: u32, height: u32, color: Color)
      requires BufferLength(width, height).Done?
      ensures Valid() && size == PixelBufferSize(width, height) && fresh(pixels)
      ensures FilledWith(pixels[..], color)
    {
      var data := new byte[BufferLength(width, height).value](_ => 0);
      Fill(data, color);
      size := PixelBufferSize(width, height);
      pixels := data;
    }
  }

  /** `PixelBuffer::new`: the byte count `width * height * 4` is u32
      arithmetic and panics when it overflows; otherwise the buffer is
      allocated and filled with the colour. */
  method NewPixelBuffer(width: u32, height: u32, color: Color) returns (r: Outcome<PixelBuffer>)
    ensures r.Panic? <==> width * height * 4 >= U32_LIMIT
    ensures r.Panic? ==> r.fault == MultiplyOverflow
    ensures r.Done? ==> r.value.Valid() && r.value.size == PixelBufferSize(width, height)
    ensures r.Done? ==> fresh(r.value.pixels) && FilledWith(r.value.pixels[..], color)
  {
    var length := BufferLength(width, height);
    if length.Panic? {
      return Panic(length.fault);
    }
    var buffer := new PixelBuffer(width, height, color);
    return Done(buffer);
  }

  /** The `step_by(4)` loop of `PixelBuffer::new`: each step writes the four
      channels of one pixel. */
  method Fill(data: array<byte>, color: Color)
    requires data.Length % 4 == 0
    modifies data
    ensures FilledWith(data[..], color)
  {
    var i := 0;
    while i < data.Length
      invariant 0 <= i <= data.Length && i % 4 == 0
      invariant forall j :: 0 <= j < i ==> data[j] == color.Bytes()[j % 4]
    {
      data[i] := color.r;
      data[i + 1] := color.g;
      data[i + 2] := color.b;
      data[i + 3] := color.a;
      i := i + 4;
    }
  }
}
