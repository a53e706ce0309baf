# wgpu_learn pixel grid, modelled in Dafny

The program opens a window and shows a small RGBA pixel buffer (50x30,
filled red). The GPU side uploads the buffer as a texture every frame and
draws one triangle (src/renderer.rs:272) whose vertices (src/buffer.rs:11-13)
cover the whole window. Its texture coordinates run from 0 to 1.5 across the
window on each axis, so the texture's own range covers the top-left two
thirds of the window in each direction; what the rest shows depends on the
shader and the sampler, which are not part of this model. Moving the mouse
over the window paints a pixel cyan.
Which pixel is decided by the mapper `physical_to_pixel_pos`, which assumes a
different layout: the buffer scaled up by a whole factor and centred. The
model states what that mapper computes; it does not claim that the painted
pixel is the one drawn under the pointer.

The model covers four parts:

- `machine.dfy` (module `Machine`) describes Rust's `u32` and `u8`. A debug
  build panics on an overflow, an underflow or a division by zero; the model
  returns that panic as the `Panic(fault)` arm of `Outcome`.
- `lib.dfy` (module `Lib`) covers:
  - the pointer-to-pixel mapper `physical_to_pixel_pos`, modelled step by step
    as the source computes it;
  - the index function `pixel_pos_to_index`;
  - the buffer constructor `PixelBuffer::new`, whose fill loop is a method
    over an `array`.
- `renderer.dfy` (module `Renderer`) models the frame controller
  `InitializedState` as a class. The surface configuration is a field that
  `resize` updates. Every backend and window call whose order the core
  decides (configure, texture upload, texture request, render pass, draw,
  submit, present, redraw request) is appended to a ghost trace, so the order
  of a frame's calls can be stated.
- `app.dfy` (module `Application`) models the handler `App` as a class. The
  spec function `Step` says what `window_event` does on an abstract view of
  the state, with the corrected pointer mapper in its pointer branch (see
  Findings), and `Resume` does the same for `resumed`. `App.WindowEvent` and
  `App.Resumed` are proved to follow them.

The model has these inputs and outputs:

- **Pointer position.** The pointer is given after `floor() as u32`, as the
  integers `rx` and `ry`.
- **Colours.** A colour is four bytes.
- **Surface texture.** Whether the surface has a texture to give is a boolean
  parameter (`frameAvailable`).
- **Surface settings.** The format and present mode the backend picks are
  opaque parameters.
- **Panics.** A panic ends the program. For the handler this is
  `Control.Abort(fault)`.

## Model

| member | source | states |
|---|---|---|
| `Lib.ProjectMeaning` | src/lib.rs:31-41 | The scale and centring arithmetic has these outcomes: a zero buffer dimension is exactly the divide-by-zero panic; an underflow means the scaled display is larger than the buffer; it finishes exactly when the display fits and the additions do not overflow; and then it yields the display size and pointer/scale plus the margin on each axis. |
| `Lib.PhysicalToPixelPos` | src/lib.rs:27-48 | The same panic and finish conditions as the arithmetic. Every position it returns is at most the display size, which is at most the buffer size, so both `assert!`s hold for every input. |
| `Lib.MappedPointerLiesInCell` | src/lib.rs:31-42 | A returned pixel lies between the margin and the display edge. The pointer lies inside that pixel's scale x scale cell of the screen. |
| `Lib.CellPointerMapsBack` | src/lib.rs:31-42 | The converse: every pointer inside the cell of a displayed pixel maps to that pixel. |
| `Lib.RejectedExactlyPastEdge` | src/lib.rs:40-42 | When the display fits and nothing overflows, the mapper returns `None` exactly for a pointer past the cell one beyond the display edge on either axis. |
| `Lib.DefaultWindowExamples` | src/lib.rs:77 | For the 50x30 buffer of `run`: 6000 bytes. In an 800x600 window: scale 20, display 40x30, horizontal margin 5. |
| `Lib.DefaultWindowPointerExamples` | src/lib.rs:27-48 | In that window, the centre (400, 300) maps to pixel (25, 15). The pointer (719, 0) maps to column 40, the display width, which the inclusive edge test still accepts; the corrected mapper accepts it too. The pointer (720, 0) maps to no pixel. |
| `Lib.NarrowWindowUnderflows` | src/lib.rs:36-41 | A 99x30 window over a 50x30 buffer makes the centring subtraction underflow, whatever the pointer position. |
| `Lib.TallWindowUnderflows` | src/lib.rs:36-41 | An 800x590 window, inside the window's maximum size of 800x600, over the 50x30 buffer: scale 19 gives a display 31 rows high, so the vertical centring subtraction underflows whatever the pointer position. |
| `Lib.PhysicalToPixelPosInBuffer` | src/lib.rs:42 | The mapper with the edge test kept as written plus a test that rejects positions outside the buffer. It finishes under the same condition as the mapper, and every pixel it returns lies inside the buffer. |
| `Lib.InBufferDiffersOnlyPastBuffer` | src/lib.rs:42 | Two things hold, both directions of the first. The corrected mapper differs from the one as written exactly when the latter returns a position in column `width` or row `height` of the buffer. Where they differ, the corrected one returns no pixel. Display-edge positions inside the buffer are accepted by both. |
| `Lib.PixelPosToIndex` | src/lib.rs:50-52 | The index finishes exactly when the byte offset `(x + y*width)*4` fits in a u32. It is then that offset, a multiple of 4; otherwise the panic is an add or multiply overflow. |
| `Lib.ByteOffsetDecodes` | src/lib.rs:50-52 | For x below the width, the byte offset is a multiple of 4, and decoding it gives the position back. |
| `Lib.PositionAtEncodes` | src/lib.rs:50-52 | Every multiple of 4 decodes to a position whose byte offset is that number. |
| `Lib.ByteOffsetInjective` | src/lib.rs:50-52 | Two positions inside the width with the same offset are equal. |
| `Lib.ByteOffsetInBounds` | src/lib.rs:50-52 | A pixel's four bytes lie inside a `width*height*4` buffer if and only if its row-major number is below `width*height`. |
| `Lib.InsidePixelInBounds` | src/lib.rs:50-52 | A position inside the width and the height has all four bytes inside the buffer. |
| `Lib.BufferLength` | src/lib.rs:60 | The vector length `width*height*4` is computed exactly when it fits in a u32, and is then a multiple of 4; otherwise the panic is a multiply overflow. |
| `Lib.FilledPixel` | src/lib.rs:61-66 | In a filled buffer, every pixel's four bytes are the colour's r, g, b, a. |
| `Lib.Fill` | src/lib.rs:61-66 | The `step_by(4)` loop leaves every byte equal to the colour channel of its position modulo 4. |
| `Lib.PixelBuffer.constructor` | src/lib.rs:55-68 | For a size whose byte count fits: the length invariant, the given size, a fresh vector, and every pixel set to the colour. |
| `Lib.NewPixelBuffer` | src/lib.rs:55-68 | `PixelBuffer::new` panics with a multiply overflow exactly when `width*height*4` does not fit in a u32. Otherwise it returns a valid buffer of that size filled with the colour. |
| `Renderer.ResizeFollowsWindow` | src/renderer.rs:201-208 | A resize to a size with an area takes its width and height. A zero-area size leaves the configuration alone and makes no call. Format and present mode never change, and at most one reconfiguration happens. |
| `Renderer.ResizeIdempotent` | src/renderer.rs:201-208 | Resizing twice to the same size gives the same configuration as once, and makes the same calls. |
| `Renderer.ZeroAreaDetourIsInvisible` | src/renderer.rs:202 | A minimised (zero-area) size in between leaves no trace in the configuration. |
| `Renderer.UploadCoversBuffer` | src/renderer.rs:236-240 | For a valid buffer, whenever the upload layout can be computed it starts at offset 0, and `bytes_per_row * rows_per_image` is the buffer's length. With at least one row it can always be computed. |
| `Renderer.FrameOrder` | src/renderer.rs:222-277 | For a valid buffer whose upload layout can be computed, a frame with a surface texture makes six calls in this order: upload the whole buffer with that layout and the buffer's extent, acquire the texture, clear with the clear colour, draw indices 0..3 once, submit, and present. Nothing else draws. |
| `Renderer.MissingFrameIsFatal` | src/renderer.rs:243-246 | Without a surface texture the frame panics after the upload and the request. Nothing is drawn, submitted or presented. |
| `Renderer.InitializedState.constructor` | src/renderer.rs:64-174 | The configuration takes the window's size and the backend's format and present mode. The surface is configured once, and the index count is the length of the index list (3). |
| `Renderer.InitializedState.Resize` | src/renderer.rs:201-208 | The new configuration and the trace are those of the resize specification. |
| `Renderer.InitializedState.RequestRedraw` | src/renderer.rs:218-220 | Appends one redraw request and changes nothing else. |
| `Renderer.InitializedState.Render` | src/renderer.rs:222-277 | The outcome and the calls appended are exactly those of `RenderFrame`, and the configuration is unchanged. The `4 * width` of the upload layout panics on overflow. |
| `Application.Highlight` | src/app.rs:100-102 | The three writes keep the length, set the red, green and blue bytes at the index to 0, 255, 255, and leave every other byte as it was, the alpha byte included. |
| `Application.WritePixel` | src/app.rs:96-104 | No target leaves the bytes unchanged. Any panic is an index overflow or an out-of-bounds index. A finished write has its three bytes in bounds at the target's byte offset and is that pixel's highlight. |
| `Application.WriteSucceedsExactlyInsideBuffer` | src/app.rs:98-102 | On a valid buffer, writing a target pixel finishes if and only if its row-major number is below `width*height`. Otherwise it panics, by overflow or by indexing. |
| `Application.WriteInsideBufferSucceeds` | src/app.rs:98-102 | A target inside the buffer gets its index at its byte offset. It is painted at exactly those three bytes, with no panic. |
| `Application.CursorWriteAsWrittenTouchesOnePixel` | src/app.rs:93-106 | The pointer move as written, on a valid buffer: it finishes exactly when the mapper finishes with no pixel or with a pixel whose row-major number is below `width*height`. It then keeps the length, sets only that pixel's red, green and blue bytes to 0, 255, 255, and changes nothing when no pixel is hit. |
| `Application.CursorWriteTouchesOnePixel` | src/app.rs:93-106 | The corrected pointer move (see Findings), on a valid buffer: it fails only where the mapper does. It keeps the length, and sets the red, green and blue bytes of the mapped pixel to 0, 255, 255. It leaves every other byte, alpha included, as it was, and changes nothing when no pixel is hit. |
| `Application.PointerOnBottomEdgeCrashes` | src/lib.rs:42 | An 800x575 window, the 50x30 buffer, and the pointer at (0, 574) inside the window. As written, this maps to pixel (4, 30), below the buffer, and the write panics with an index out of bounds (byte 6016 of 6000). Corrected, it paints nothing. |
| `Application.PointerOnRightEdgePaintsNextRow` | src/lib.rs:42 | A 760x450 window, the 50x30 buffer, and the pointer at (750, 0). As written, this maps to column 50 of row 0 and paints pixel (0, 1). Corrected, it paints nothing. |
| `Application.DefaultWindowPaintsEdgeColumn` | src/lib.rs:42 | In the 800x600 window, the pointer at (719, 0) paints pixel (40, 0), byte 160, both as written and corrected. |
| `Application.CorrectionOnlyChangesTheEdge` | src/app.rs:95-102 | The corrected pointer write differs from the one as written only for a pointer mapped to column `width` or row `height` of the buffer. There it paints nothing; in particular every index panic as written becomes no write. |
| `Application.ResumeOnce` | src/app.rs:33-72 | Resuming keeps the invariant and leaves the handler with a frame controller. A second resume changes nothing. A first resume records the window size and the clear colour green, and configures the surface with that size once. |
| `Application.StepPreservesInv` | src/app.rs:75-110 | Every event keeps the invariant. The frame controller exists before the event if and only if it exists after, and the buffer size never changes. |
| `Application.EventsIgnoredBeforeResume` | src/app.rs:81 | Before the frame controller exists, every event leaves the state as it was and continues. |
| `Application.EventRoles` | src/app.rs:82-107 | Only a close request exits (both directions). Only a pointer move changes pixels. Only a resize changes the recorded window size or the configuration. A close request and every other event leave the whole state, backend trace included, unchanged. No event changes the clear colour. |
| `Application.ResizeStep` | src/app.rs:83-87 | A resize always records the new size, even a zero-area one, and asks for a redraw. It reconfigures the surface exactly when the size has an area. |
| `Application.RedrawStep` | src/app.rs:88-91 | For a buffer whose upload layout can be computed, a redraw with a surface texture uploads the whole buffer, clears with the stored colour, draws indices 0..3, presents, and asks for the next redraw. Without a texture it aborts before drawing. |
| `Application.EventRolesAnyState` | src/app.rs:75-110 | In any state, no event changes the clear colour, and an existing frame controller's trace is only appended to. |
| `Application.RunKeepsInvariant` | src/lib.rs:80 | `run_app` as modelled by `Run`: events are handed to the handler in order until it exits or panics. Over any such sequence the invariant holds and the buffer keeps its size. The clear colour and the existence of the frame controller stay, and the backend trace only grows. Every control result but the last is `Continue`, and the loop stops early only at a result that is not `Continue`. |
| `Application.App.constructor` | src/app.rs:21-28 | Only the buffer is known: no frame controller, no clear colour, no size. |
| `Application.App.Resumed` | src/app.rs:33-72 | The new view is that of `Resume`. The first time the frame controller is fresh; later calls change nothing. |
| `Application.App.WindowEvent` | src/app.rs:75-110 | The new view and the control result are exactly those of `Step`, and the invariant is kept. The cursor branch writes the three bytes of the buffer in place. |

## Left out

- Floating point is left out. The pointer's `floor() as u32` (src/lib.rs:28-29)
  is outside the model, which starts from the resulting integers. The colour
  conversion `(c * 255.0).floor() as u8` (src/lib.rs:62-65) is also left out,
  and colours are bytes from the start.
- Release builds are left out. There, u32 arithmetic wraps instead of
  panicking. The model follows debug builds, in which every overflow,
  underflow or division by zero is a panic.
- Lib.PixelBuffer.constructor: requires that `width*height*4` fits in a u32.
  The panic when it does not is modelled by `Lib.NewPixelBuffer`.
- Application.App.WindowEvent: follows the corrected mapper (see Findings),
  which differs from the program only where the mapper as written maps the
  pointer to column `width` or row `height` of the buffer. As written, row
  `height` always panics, and column `width` paints pixel (0, y+1) or
  panics. The program as written
  is modelled by `Application.CursorWriteAsWritten` and the lemmas about it.
- Application.CursorWriteTouchesOnePixel: is stated of the corrected pointer
  write. As written, the program also panics after a successful mapping; that
  case is stated by `Application.CursorWriteAsWrittenTouchesOnePixel`.
- Window creation, the event-loop construction and `run`'s set-up are left
  out (src/app.rs:36, 54; src/lib.rs:72-79). They are platform I/O. The
  window's inner size and the surface texture's availability are parameters
  instead.
- `run_app` (src/lib.rs:80) is modelled by `Application.Run` as a fold of
  `Step` over a sequence of window events. That it stops at the first exit
  or panic is an assumption about winit's event loop, whose code is not part
  of this model. `resumed` is not in the event sequence: `Run` starts from a
  state the caller gives, and `Application.ResumeOnce` states `resumed`
  separately.
- GPU set-up in `InitializedState::new` is left out (src/renderer.rs:37-194).
  That covers the instance, adapter, device, shader, pipeline, vertex, index
  and bind-group creation. Only the configuration, the first `configure` and
  the index count are kept.
- The texture upload helper `texture::from_pixel_buffer` and the vertex data
  of buffer.rs are left out. texture.rs is not part of this model, and the
  vertex data is only the triangle's geometry.
- Within a frame, the command-encoder and texture-view creation are not
  traced (src/renderer.rs:247-252). Neither are the pipeline, bind-group,
  vertex-buffer and index-buffer settings (src/renderer.rs:268-271). They do
  not depend on the core's state.
- The `println!` in `resize` is left out: it is console output.
- The WebAssembly branches of `resumed` (src/app.rs:37-51, 61-70) are left
  out, as are the `input` and `update` stubs (src/renderer.rs:210-216), which
  are `todo!()` and never called.
- Sharing the pixel buffer through `Arc` is left out. The model lets `App` own
  the buffer. It assumes that `Arc::get_mut(..).unwrap()` (src/app.rs:94)
  finds no other holder. Whether that is so depends on
  `texture::from_pixel_buffer`, which is not part of this model, so the
  panic on a shared buffer is not modelled.
- The backend's own validation and errors inside wgpu calls are left out.
  The only backend failure modelled is the missing surface texture.

## Findings

| source | as written | input that shows it | evidently intended | confidence | as-written member | corrected member |
|---|---|---|---|---|---|---|
| src/lib.rs:42 | `if x > width \|\| y > height {return None}` accepts x == display width and y == display height; when the display fills the buffer on an axis, that is column `width` or row `height` of the buffer, and src/app.rs:100-102 then indexes with that position | window 800x575 (inside the maximum 800x600), buffer 50x30, pointer (0, 574): maps to (4, 30), byte index 6016 of 6000, index-out-of-bounds panic; window 760x450, pointer (750, 0): maps to (50, 0) and paints pixel (0, 1) | every accepted pointer names a pixel of the buffer: keep the test as written and also return no pixel when x >= buffer width or y >= buffer height; display-edge positions inside the buffer, such as (40, 0) in the 800x600 window, stay accepted | not executed | `Application.PointerOnBottomEdgeCrashes` | `Lib.PhysicalToPixelPosInBuffer` |
