/** The frame controller of renderer.rs, reduced to what the core decides: the
    surface configuration it keeps in step with the window size, the layout of
    the texture upload, and the order of the calls it makes into the graphics
    backend each frame. The backend objects themselves (surface, device, queue,
    pipeline, texture, bind group) are opaque; what the core asks of them is
    recorded in a ghost trace. */
module Renderer {
  import opened Machine
  import opened Lib

  /** The index list of the full-screen triangle (buffer.rs:18-21). */
  const INDICES: seq<int> := [0, 1, 2]

  /** The surface configuration: the size the core maintains and the settings
      the backend picked when the state was created, which the core never
      changes. */
  datatype SurfaceConfiguration = SurfaceConfiguration(width: u32, height: u32, format: nat, presentMode: nat)

  /** How the bytes of the upload are laid out in memory. */
  datatype ImageDataLayout = ImageDataLayout(offset: nat, bytesPerRow: u32, rowsPerImage: u32)

  datatype Extent3d = Extent3d(width: u32, height: u32, depthOrArrayLayers: u32)

  /** One call from the core into the graphics backend or the window. */
  datatype Call =
    | Configure(config: SurfaceConfiguration)
    | WriteTexture(data: seq<byte>, layout: ImageDataLayout, extent: Extent3d)
    | GetCurrentTexture
    | BeginRenderPass(clear: Color)
    | DrawIndexed(firstIndex: nat, endIndex: nat, baseVertex: int, firstInstance: nat, endInstance: nat)
    | Submit
    | Present
    | RequestRedraw

  // ---------------------------------------------------------------------------
  // Resize (renderer.rs:201-208)
  // ---------------------------------------------------------------------------

  predicate NonZeroArea(size: PhysicalSize) {
    size.width > 0 && size.height > 0
  }

  /** The configuration after a resize to `size`. */
  function ResizedConfig(config: SurfaceConfiguration, size: PhysicalSize): SurfaceConfiguration {
    if NonZeroArea(size) then config.(width := size.width, height := size.height) else config
  }

  /** The backend calls a resize makes: one reconfiguration, or none for a
      zero-area size. */
  function ResizeCalls(config: SurfaceConfiguration, size: PhysicalSize): seq<Call> {
    if NonZeroArea(size) then [Configure(ResizedConfig(config, size))] else []
  }

  /** A resize takes the window size when it has an area and otherwise keeps
      the configuration, touching nothing but width and height. */
  lemma ResizeFollowsWindow(config: SurfaceConfiguration, size: PhysicalSize)
    ensures NonZeroArea(size) ==>
      ResizedConfig(config, size).width == size.width && ResizedConfig(config, size).height == size.height
    ensures !NonZeroArea(size) ==> ResizedConfig(config, size) == config && ResizeCalls(config, size) == []
    ensures ResizedConfig(config, size).format == config.format
    ensures ResizedConfig(config, size).presentMode == config.presentMode
    ensures |ResizeCalls(config, size)| <= 1
  {
  }

  /** Resizing twice to the same size is resizing once. */
  lemma ResizeIdempotent(config: SurfaceConfiguration, size: PhysicalSize)
    ensures ResizedConfig(ResizedConfig(config, size), size) == ResizedConfig(config, size)
    ensures ResizeCalls(ResizedConfig(config, size), size) == ResizeCalls(config, size)
  {
  }

  /** A minimised window in between does not disturb the configuration: going
      to 0x0 and back ends where going straight back would. */
  lemma ZeroAreaDetourIsInvisible(config: SurfaceConfiguration, size: PhysicalSize, other: PhysicalSize)
    requires !NonZeroArea(other)
    ensures ResizedConfig(ResizedConfig(config, other), size) == ResizedConfig(config, size)
  {
  }

  // ---------------------------------------------------------------------------
  // Render (renderer.rs:222-277)
  // ---------------------------------------------------------------------------

  /** The upload layout: rows of `4 * width` bytes, `height` rows. The product
      `4 * width` is a u32 multiplication and panics when it overflows. */
  function UploadLayout(size: PixelBufferSize): Outcome<ImageDataLayout> {
    var bytesPerRow :- CheckedMul(4, size.width);
    Done(ImageDataLayout(0, bytesPerRow, size.height))
  }

  /** For a buffer that satisfies the length invariant, a layout that can be
      computed describes exactly the buffer's bytes; with at least one row it
      can always be computed. */
  lemma UploadCoversBuffer(size: PixelBufferSize, length: nat)
    requires BufferLength(size.width, size.height) == Done(length)
    ensures size.height > 0 ==> UploadLayout(size).Done?
    ensures UploadLayout(size).Done? ==>
      UploadLayout(size).value.offset == 0 &&
      UploadLayout(size).value.bytesPerRow * UploadLayout(size).value.rowsPerImage == length
  {
    if size.height > 0 {
      MulMonotone(size.width * 4, 1, size.height);
    }
    assert 4 * size.width * size.height == size.width * size.height * 4;
  }

  /** What one call of `render` does: the calls it makes, in order, and whether
      it finishes or panics. `frameAvailable` is the backend's answer to the
      request for the next surface texture. */
  datatype Frame = Frame(calls: seq<Call>, outcome: Outcome<()>)

  function RenderFrame(clear: Color, size: PixelBufferSize, data: seq<byte>, indexCount: nat, frameAvailable: bool): Frame {
    match UploadLayout(size)
    case Panic(fault) => Frame([], Panic(fault))
    case Done(layout) =>
      var upload := WriteTexture(data, layout, Extent3d(size.width, size.height, 1));
      if !frameAvailable then
        Frame([upload, GetCurrentTexture], Panic(SurfaceTextureUnavailable))
      else
        Frame([upload, GetCurrentTexture, BeginRenderPass(clear), DrawIndexed(0, indexCount, 0, 0, 1), Submit, Present], Done(()))
  }

  /** A completed frame uploads the whole buffer first, then acquires the
      frame, clears and draws the index list once, submits, and presents
      last. */
  lemma FrameOrder(clear: Color, size: PixelBufferSize, data: seq<byte>, frameAvailable: bool)
    requires BufferLength(size.width, size.height) == Done(|data|)
    requires UploadLayout(size).Done?
    requires frameAvailable
    ensures var f := RenderFrame(clear, size, data, |INDICES|, frameAvailable);
      f.outcome == Done(()) && |f.calls| == 6 &&
      f.calls[0].WriteTexture? && f.calls[0].data == data &&
      f.calls[0].extent == Extent3d(size.width, size.height, 1) &&
      f.calls[0].layout.bytesPerRow * f.calls[0].layout.rowsPerImage == |data| &&
      f.calls[1] == GetCurrentTexture &&
      f.calls[2] == BeginRenderPass(clear) &&
      f.calls[3] == DrawIndexed(0, 3, 0, 0, 1) &&
      f.calls[4] == Submit && f.calls[5] == Present
    ensures var f := RenderFrame(clear, size, data, |INDICES|, frameAvailable);
      forall i :: 0 <= i < |f.calls| && f.calls[i].DrawIndexed? ==> i == 3
  {
    UploadCoversBuffer(size, |data|);
  }

  /** When no surface texture is available the frame panics after the upload,
      before anything is drawn, submitted or presented. */
  lemma MissingFrameIsFatal(clear: Color, size: PixelBufferSize, data: seq<byte>, indexCount: nat)
    requires UploadLayout(size).Done?
    ensures var f := RenderFrame(clear, size, data, indexCount, false);
      f.outcome == Panic(SurfaceTextureUnavailable) &&
      |f.calls| == 2 && f.calls[0].WriteTexture? && f.calls[1] == GetCurrentTexture
  {
  }

  /** The backend state the frame controller owns once it is initialised. */
  class InitializedState {
    var config: SurfaceConfiguration
    const indexCount: nat
    ghost var trace: seq<Call>

    /** The part of `InitializedState::new` the core decides: the initial
        configuration takes the window's size, the surface is configured once,
        and the index count is that of the index list. */
    constructor (size: PhysicalSize, format: nat, presentMode: nat)
      ensures config == SurfaceConfiguration(size.width, size.height, format, presentMode)
      ensures indexCount == |INDICES|
      ensures trace == [Configure(config)]
    {
      config := SurfaceConfiguration(size.width, size.height, format, presentMode);
      indexCount := |INDICES|;
      trace := [Configure(SurfaceConfiguration(size.width, size.height, format, presentMode))];
    }

    /** `resize`: ignore a zero-area size; otherwise take the new width and
        height and reconfigure the surface. */
    method Resize(size: PhysicalSize)
      modifies this
      ensures config == ResizedConfig(old(config), size)
      ensures trace == old(trace) + ResizeCalls(old(config), size)
    {
      if size.width > 0 && size.height > 0 {
        config := config.(width := size.width, height := size.height);
        trace := trace + [Configure(config)];
      }
    }

    method RequestRedraw()
      modifies this
      ensures config == old(config)
      ensures trace == old(trace) + [Call.RequestRedraw]
    {
      trace := trace + [Call.RequestRedraw];
    }

    /** `render`: upload the pixel buffer, acquire the frame (fatal when it is
        unavailable), draw, submit and present. */
    method Render(clear: Color, pixels: PixelBuffer, frameAvailable: bool) returns (r: Outcome<()>)
      modifies this
      ensures config == old(config)
      ensures var f := RenderFrame(clear, pixels.size, pixels.pixels[..], indexCount, frameAvailable);
        r == f.outcome && trace == old(trace) + f.calls
    {
      var extent := Extent3d(pixels.size.width, pixels.size.height, 1);
      if 4 * pixels.size.width >= U32_LIMIT {
        return Panic(MultiplyOverflow);
      }
      var layout := ImageDataLayout(0, 4 * pixels.size.width, pixels.size.height);
      trace := trace + [WriteTexture(pixels.pixels[..], layout, extent)];
      trace := trace + [GetCurrentTexture];
      if !frameAvailable {
        return Panic(SurfaceTextureUnavailable);
      }
      trace := trace + [BeginRenderPass(clear), DrawIndexed(0, indexCount, 0, 0, 1)];
      trace := trace + [Submit];
      trace := trace + [Present];
      r := Done(());
    }
  }
}
