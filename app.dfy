/** The application handler of app.rs: it owns the pixel buffer, creates the
    frame controller once the platform resumes it, and dispatches window
    events. Its behaviour is specified by `Resume` and `Step` on an abstract
    view of its state; the class `App` is proved to follow them. */
module Application {
  import opened Machine
  import opened Lib
  import opened Renderer

  /** The window events the handler tells apart (winit's `WindowEvent`). The
      pointer position is given after the float-to-integer cast of lib.rs:28-29;
      `Other` stands for every event that reaches the default arm. */
  datatype Event =
    | Resized(size: PhysicalSize)
    | RedrawRequested
    | CloseRequested
    | CursorMoved(x: u32, y: u32)
    | Other

  /** What the event loop is left with after an event: keep going, exit, or a
      panic that ends the program. */
  datatype Control = Continue | Exit | Abort(fault: Fault)

  // ---------------------------------------------------------------------------
  // Painting under the pointer (app.rs:93-106)
  // ---------------------------------------------------------------------------

  /** The pixel whose red byte is at `index` turned cyan; its alpha byte and
      every other byte stay. */
  function Highlight(pixels: seq<byte>, index: nat): (r: seq<byte>)
    requires index + 2 < |pixels|
    ensures |r| == |pixels|
    ensures r[index] == 0 && r[index + 1] == 255 && r[index + 2] == 255
    ensures forall j :: 0 <= j < |pixels| && (j < index || index + 2 < j) ==> r[j] == pixels[j]
  {
    pixels[index := 0][index + 1 := 255][index + 2 := 255]
  }

  /** Paint the target pixel, if there is one. The three byte writes index the
      vector, so a red byte at or past its end panics. */
  function WritePixel(pixels: seq<byte>, buffer: PixelBufferSize, target: Option<PixelPosition>): (r: Outcome<seq<byte>>)
    ensures target.None? ==> r == Done(pixels)
    ensures r.Panic? ==> r.fault == AddOverflow || r.fault == MultiplyOverflow || r.fault == IndexOutOfBounds
    ensures r.Done? && target.Some? ==>
      ByteOffset(target.value, buffer) + 2 < |pixels| && r.value == Highlight(pixels, ByteOffset(target.value, buffer))
  {
    match target
    case None => Done(pixels)
    case Some(p) =>
      var index :- PixelPosToIndex(p, buffer);
      if index + 2 < |pixels| then Done(Highlight(pixels, index)) else Panic(IndexOutOfBounds)
  }

  /** What a pointer move at (`rx`, `ry`) does to the pixel bytes as the
      program is written: the mapper accepts the column and the row just past
      the displayed area (lib.rs:42). */
  function CursorWriteAsWritten(pixels: seq<byte>, buffer: PixelBufferSize, window: PhysicalSize, rx: u32, ry: u32): Outcome<seq<byte>> {
    var target :- PhysicalToPixelPos(rx, ry, window, buffer);
    WritePixel(pixels, buffer, target)
  }

  /** What a pointer move does when positions outside the buffer name no
      pixel; the rest of the model uses this one. */
  function CursorWrite(pixels: seq<byte>, buffer: PixelBufferSize, window: PhysicalSize, rx: u32, ry: u32): Outcome<seq<byte>> {
    var target :- PhysicalToPixelPosInBuffer(rx, ry, window, buffer);
    WritePixel(pixels, buffer, target)
  }

  /** On a buffer whose length is its width times height times four, painting
      succeeds exactly when the target's pixel number lies below width times
      height; otherwise it panics, by overflow or by indexing. */
  lemma WriteSucceedsExactlyInsideBuffer(pixels: seq<byte>, buffer: PixelBufferSize, p: PixelPosition)
    requires BufferLength(buffer.width, buffer.height) == Done(|pixels|)
    ensures WritePixel(pixels, buffer, Some(p)).Done? <==> p.x + p.y * buffer.width < buffer.width * buffer.height
  {
    ByteOffsetInBounds(p, buffer);
  }

  /** A target inside the buffer's width and height is always painted, at the
      byte offset of the pixel. */
  lemma WriteInsideBufferSucceeds(pixels: seq<byte>, buffer: PixelBufferSize, p: PixelPosition)
    requires BufferLength(buffer.width, buffer.height) == Done(|pixels|)
    requires p.x < buffer.width && p.y < buffer.height
    ensures PixelPosToIndex(p, buffer) == Done(ByteOffset(p, buffer))
    ensures ByteOffset(p, buffer) + 2 < |pixels|
    ensures WritePixel(pixels, buffer, Some(p)) == Done(Highlight(pixels, ByteOffset(p, buffer)))
  {
    InsidePixelInBounds(p, buffer);
    WriteSucceedsExactlyInsideBuffer(pixels, buffer, p);
  }

  /** With the corrected mapper, a paint changes exactly the red, green and
      blue bytes of the mapped pixel, and nothing when the pointer maps to no
      pixel; on a well-formed buffer it panics only where the mapper does. */
  lemma CursorWriteTouchesOnePixel(pixels: seq<byte>, buffer: PixelBufferSize, window: PhysicalSize, rx: u32, ry: u32)
    requires BufferLength(buffer.width, buffer.height) == Done(|pixels|)
    ensures var out := CursorWrite(pixels, buffer, window, rx, ry);
      var target := PhysicalToPixelPosInBuffer(rx, ry, window, buffer);
      out.Done? == target.Done? &&
      (out.Done? ==> |out.value| == |pixels|) &&
      (out.Done? && target.value.None? ==> out.value == pixels) &&
      (out.Done? && target.value.Some? ==>
        var i := ByteOffset(target.value.value, buffer);
        i + 2 < |pixels| && out.value[i] == 0 && out.value[i + 1] == 255 && out.value[i + 2] == 255 &&
        forall j :: 0 <= j < |pixels| && (j < i || i + 2 < j) ==> out.value[j] == pixels[j])
  {
    var target := PhysicalToPixelPosInBuffer(rx, ry, window, buffer);
    if target.Done? && target.value.Some? {
      WriteInsideBufferSucceeds(pixels, buffer, target.value.value);
    }
  }

  /** The pointer move as written, on a well-formed buffer: it finishes
      exactly when the mapper finishes with no pixel or with a pixel whose
      row-major number is below width times height, and then it changes only
      that pixel's red, green and blue bytes. */
  lemma CursorWriteAsWrittenTouchesOnePixel(pixels: seq<byte>, buffer: PixelBufferSize, window: PhysicalSize, rx: u32, ry: u32)
    requires BufferLength(buffer.width, buffer.height) == Done(|pixels|)
    ensures var out := CursorWriteAsWritten(pixels, buffer, window, rx, ry);
      var target := PhysicalToPixelPos(rx, ry, window, buffer);
      (out.Done? <==>
        (target.Done? &&
         (target.value.None? ||
          target.value.value.x + target.value.value.y * buffer.width < buffer.width * buffer.height))) &&
      (out.Done? ==> |out.value| == |pixels|) &&
      (out.Done? && target.value.None? ==> out.value == pixels) &&
      (out.Done? && target.value.Some? ==>
        var i := ByteOffset(target.value.value, buffer);
        i + 2 < |pixels| && out.value[i] == 0 && out.value[i + 1] == 255 && out.value[i + 2] == 255 &&
        forall j :: 0 <= j < |pixels| && (j < i || i + 2 < j) ==> out.value[j] == pixels[j])
  {
    var target := PhysicalToPixelPos(rx, ry, window, buffer);
    if target.Done? && target.value.Some? {
      WriteSucceedsExactlyInsideBuffer(pixels, buffer, target.value.value);
    }
  }

  /** The program as written: on an 800x575 window over the 50x30 buffer the
      pointer at (0, 574), inside the window, maps to the row just below the
      buffer, whose red byte is at 6016 of 6000, and the write panics; with the
      correction the same pointer paints nothing. */
  lemma PointerOnBottomEdgeCrashes(pixels: seq<byte>)
    requires |pixels| == 6000
    ensures PhysicalToPixelPos(0, 574, PhysicalSize(800, 575), PixelBufferSize(50, 30)) == Done(Some(PixelPosition(4, 30)))
    ensures CursorWriteAsWritten(pixels, PixelBufferSize(50, 30), PhysicalSize(800, 575), 0, 574) == Panic(IndexOutOfBounds)
    ensures CursorWrite(pixels, PixelBufferSize(50, 30), PhysicalSize(800, 575), 0, 574) == Done(pixels)
  {
    var window, buffer := PhysicalSize(800, 575), PixelBufferSize(50, 30);
    assert Div(800, 50) == 16 && Div(575, 30) == 19;
    assert Scale(window, buffer) == 19;
    ProjectMeaning(0, 574, window, buffer);
    assert PixelPosToIndex(PixelPosition(4, 30), buffer) == Done(6016);
  }

  /** The correction changes the outcome only for a pointer the program as
      written maps to column `width` or row `height` of the buffer, and there
      it paints nothing instead. In particular every index panic of the
      program as written becomes no write. */
  lemma CorrectionOnlyChangesTheEdge(pixels: seq<byte>, buffer: PixelBufferSize, window: PhysicalSize, rx: u32, ry: u32)
    requires BufferLength(buffer.width, buffer.height) == Done(|pixels|)
    ensures var target := PhysicalToPixelPos(rx, ry, window, buffer);
      CursorWrite(pixels, buffer, window, rx, ry) != CursorWriteAsWritten(pixels, buffer, window, rx, ry) ==>
        CursorWrite(pixels, buffer, window, rx, ry) == Done(pixels) &&
        target.Done? && target.value.Some? &&
        (target.value.value.x == buffer.width || target.value.value.y == buffer.height)
    ensures CursorWriteAsWritten(pixels, buffer, window, rx, ry) == Panic(IndexOutOfBounds) ==>
      CursorWrite(pixels, buffer, window, rx, ry) == Done(pixels)
  {
    InBufferDiffersOnlyPastBuffer(rx, ry, window, buffer);
    var target := PhysicalToPixelPos(rx, ry, window, buffer);
    if target.Done? && target.value.Some? {
      var p := target.value.value;
      if p.x < buffer.width && p.y < buffer.height {
        WriteInsideBufferSucceeds(pixels, buffer, p);
      }
    }
  }

  /** The other face of the same edge: on a 760x450 window over the 50x30
      buffer the display is the whole buffer (scale 15), and the pointer at
      (750, 0), inside the window, maps to column 50 of row 0, whose bytes are
      those of pixel (0, 1); the program as written paints that pixel, the
      correction paints nothing. */
  lemma PointerOnRightEdgePaintsNextRow(pixels: seq<byte>)
    requires |pixels| == 6000
    ensures PhysicalToPixelPos(750, 0, PhysicalSize(760, 450), PixelBufferSize(50, 30)) == Done(Some(PixelPosition(50, 0)))
    ensures CursorWriteAsWritten(pixels, PixelBufferSize(50, 30), PhysicalSize(760, 450), 750, 0) ==
      Done(Highlight(pixels, ByteOffset(PixelPosition(0, 1), PixelBufferSize(50, 30))))
    ensures CursorWrite(pixels, PixelBufferSize(50, 30), PhysicalSize(760, 450), 750, 0) == Done(pixels)
  {
    var window, buffer := PhysicalSize(760, 450), PixelBufferSize(50, 30);
    assert Div(760, 50) == 15 && Div(450, 30) == 15;
    assert Scale(window, buffer) == 15;
    ProjectMeaning(750, 0, window, buffer);
    assert PixelPosToIndex(PixelPosition(50, 0), buffer) == Done(200);
  }

  /** In an 800x600 window, the largest inner size the handler allows, the pointer at (719, 0) maps to column
      40, the display width, which lies inside the buffer: both the program
      as written and the corrected one paint pixel (40, 0). */
  lemma DefaultWindowPaintsEdgeColumn(pixels: seq<byte>)
    requires |pixels| == 6000
    ensures CursorWriteAsWritten(pixels, PixelBufferSize(50, 30), PhysicalSize(800, 600), 719, 0) ==
      Done(Highlight(pixels, 160))
    ensures CursorWrite(pixels, PixelBufferSize(50, 30), PhysicalSize(800, 600), 719, 0) ==
      Done(Highlight(pixels, 160))
  {
    var window, buffer := PhysicalSize(800, 600), PixelBufferSize(50, 30);
    DefaultWindowPointerExamples();
    InBufferDiffersOnlyPastBuffer(719, 0, window, buffer);
    assert PixelPosToIndex(PixelPosition(40, 0), buffer) == Done(160);
  }

  // ---------------------------------------------------------------------------
  // The handler's specification (app.rs:33-72, 75-110)
  // ---------------------------------------------------------------------------

  /** What the handler knows of its frame controller. */
  datatype BackendView = BackendView(config: SurfaceConfiguration, indexCount: nat, trace: seq<Call>)

  /** The handler's state as values: the frame controller if it exists, the
      clear colour, the last known window size, and the pixel buffer. */
  datatype AppView = AppView(
    backend: Option<BackendView>,
    clear: Option<Color>,
    size: Option<PhysicalSize>,
    bufferSize: PixelBufferSize,
    pixels: seq<byte>)

  /** What holds between events: the frame controller exists only after the
      window size and clear colour are known, it draws the three-index list,
      and the pixel buffer has the length its size gives. */
  predicate Inv(v: AppView) {
    (v.backend.Some? ==> v.size.Some? && v.clear.Some? && v.backend.value.indexCount == |INDICES|) &&
    BufferLength(v.bufferSize.width, v.bufferSize.height) == Done(|v.pixels|)
  }

  /** `resumed`: the first time, record the window's inner size and the clear
      colour green and create the frame controller, which configures the
      surface once; every later time, nothing. */
  function Resume(v: AppView, innerSize: PhysicalSize, format: nat, presentMode: nat): AppView {
    if v.backend.Some? then v
    else
      var config := SurfaceConfiguration(innerSize.width, innerSize.height, format, presentMode);
      v.(backend := Some(BackendView(config, |INDICES|, [Configure(config)])),
         clear := Some(GREEN),
         size := Some(innerSize))
  }

  /** `window_event`: nothing before the frame controller exists; otherwise
      dispatch on the event. */
  function Step(v: AppView, event: Event, frameAvailable: bool): (AppView, Control)
    requires Inv(v)
  {
    if v.backend.None? then (v, Continue)
    else
      var b := v.backend.value;
      match event
      case Resized(size) =>
        var b' := b.(config := ResizedConfig(b.config, size),
                     trace := b.trace + ResizeCalls(b.config, size) + [Call.RequestRedraw]);
        (v.(size := Some(size), backend := Some(b')), Continue)
      case RedrawRequested =>
        var frame := RenderFrame(v.clear.value, v.bufferSize, v.pixels, b.indexCount, frameAvailable);
        if frame.outcome.Panic? then
          (v.(backend := Some(b.(trace := b.trace + frame.calls))), Abort(frame.outcome.fault))
        else
          (v.(backend := Some(b.(trace := b.trace + frame.calls + [Call.RequestRedraw]))), Continue)
      case CloseRequested => (v, Exit)
      case CursorMoved(rx, ry) =>
        (match CursorWrite(v.pixels, v.bufferSize, v.size.value, rx, ry)
         case Panic(fault) => (v, Abort(fault))
         case Done(pixels) => (v.(pixels := pixels), Continue))
      case Other => (v, Continue)
  }

  /** Resuming establishes the invariant's frame-controller half, and a second
      resume changes nothing. */
  lemma ResumeOnce(v: AppView, innerSize: PhysicalSize, format: nat, presentMode: nat, innerSize': PhysicalSize, format': nat, presentMode': nat)
    requires Inv(v)
    ensures var r := Resume(v, innerSize, format, presentMode);
      Inv(r) && r.backend.Some? && r.bufferSize == v.bufferSize && r.pixels == v.pixels &&
      Resume(r, innerSize', format', presentMode') == r
    ensures v.backend.None? ==>
      var r := Resume(v, innerSize, format, presentMode);
      r.size == Some(innerSize) && r.clear == Some(GREEN) &&
      r.backend.value.config.width == innerSize.width && r.backend.value.config.height == innerSize.height &&
      r.backend.value.trace == [Configure(r.backend.value.config)]
  {
  }

  /** Every event keeps the invariant, and none changes the buffer's size. */
  lemma StepPreservesInv(v: AppView, event: Event, frameAvailable: bool)
    requires Inv(v)
    ensures Inv(Step(v, event, frameAvailable).0)
    ensures Step(v, event, frameAvailable).0.bufferSize == v.bufferSize
    ensures Step(v, event, frameAvailable).0.backend.Some? == v.backend.Some?
  {
    if v.backend.Some? && event.CursorMoved? {
      CursorWriteTouchesOnePixel(v.pixels, v.bufferSize, v.size.value, event.x, event.y);
    }
  }

  /** One event never changes the clear colour and only appends to the
      backend trace. */
  lemma EventRolesAnyState(v: AppView, event: Event, frameAvailable: bool)
    requires Inv(v)
    ensures var w := Step(v, event, frameAvailable).0;
      w.clear == v.clear &&
      (v.backend.Some? ==> w.backend.Some? && v.backend.value.trace <= w.backend.value.trace)
  {
  }

  /** Before the platform resumes the handler, every event is ignored. */
  lemma EventsIgnoredBeforeResume(v: AppView, event: Event, frameAvailable: bool)
    requires Inv(v) && v.backend.None?
    ensures Step(v, event, frameAvailable) == (v, Continue)
  {
  }

  /** Only a close request exits, only the pointer changes pixels, and only
      a resize changes the recorded window size or the surface configuration.
      A close request and every other event leave the state, backend trace
      included, as it was. */
  lemma EventRoles(v: AppView, event: Event, frameAvailable: bool)
    requires Inv(v) && v.backend.Some?
    ensures var (w, c) := Step(v, event, frameAvailable);
      (c == Exit <==> event == CloseRequested) &&
      (!event.CursorMoved? ==> w.pixels == v.pixels) &&
      (!event.Resized? ==> w.size == v.size && w.backend.value.config == v.backend.value.config) &&
      (event.Other? || event == CloseRequested ==> w == v) &&
      w.clear == v.clear
  {
  }

  /** A resize records the new size even when it has no area, reconfigures
      the surface only when it has, and always asks for a redraw. */
  lemma ResizeStep(v: AppView, size: PhysicalSize, frameAvailable: bool)
    requires Inv(v) && v.backend.Some?
    ensures var (w, c) := Step(v, Resized(size), frameAvailable);
      c == Continue && w.size == Some(size) &&
      (NonZeroArea(size) ==>
        w.backend.value.config.width == size.width && w.backend.value.config.height == size.height &&
        w.backend.value.trace == v.backend.value.trace + [Configure(w.backend.value.config), Call.RequestRedraw]) &&
      (!NonZeroArea(size) ==>
        w.backend.value.config == v.backend.value.config &&
        w.backend.value.trace == v.backend.value.trace + [Call.RequestRedraw])
  {
  }

  /** A redraw with a frame available uploads the whole buffer, draws,
      submits, presents and then asks for the next redraw; without a frame
      the program panics before drawing. */
  lemma RedrawStep(v: AppView, frameAvailable: bool)
    requires Inv(v) && v.backend.Some? && UploadLayout(v.bufferSize).Done?
    ensures var (w, c) := Step(v, RedrawRequested, frameAvailable);
      var t := w.backend.value.trace;
      var n := |v.backend.value.trace|;
      (frameAvailable ==>
        c == Continue && |t| == n + 7 && t[..n] == v.backend.value.trace &&
        t[n] == WriteTexture(v.pixels, t[n].layout, t[n].extent) &&
        t[n].layout.bytesPerRow * t[n].layout.rowsPerImage == |v.pixels| &&
        t[n + 2] == BeginRenderPass(v.clear.value) &&
        t[n + 3] == DrawIndexed(0, 3, 0, 0, 1) &&
        t[n + 5] == Present && t[n + 6] == Call.RequestRedraw) &&
      (!frameAvailable ==>
        c == Abort(SurfaceTextureUnavailable) && |t| == n + 2 && t[n + 1] == GetCurrentTexture)
  {
    if frameAvailable {
      FrameOrder(v.clear.value, v.bufferSize, v.pixels, frameAvailable);
    } else {
      MissingFrameIsFatal(v.clear.value, v.bufferSize, v.pixels, v.backend.value.indexCount);
    }
  }

  /** The event loop of `run` (src/lib.rs:80): events reach the handler one at
      a time, in order, until it exits or panics. `frameAvailable[i]` is the
      backend's answer for the `i`-th event. The result is the final state
      and the control result of every event handled. */
  function Run(v: AppView, events: seq<Event>, frameAvailable: seq<bool>): (AppView, seq<Control>)
    requires Inv(v) && |frameAvailable| == |events|
    decreases |events|
  {
    if events == [] then (v, [])
    else
      StepPreservesInv(v, events[0], frameAvailable[0]);
      var (w, control) := Step(v, events[0], frameAvailable[0]);
      if control != Continue then (w, [control])
      else
        var (u, controls) := Run(w, events[1..], frameAvailable[1..]);
        (u, [control] + controls)
  }

  /** Over any sequence of events the invariant holds, the buffer keeps its
      size, the clear colour and the existence of the frame controller stay,
      the backend trace only grows, and the loop stops at the first event
      that does not continue. */
  lemma {:induction false} RunKeepsInvariant(v: AppView, events: seq<Event>, frameAvailable: seq<bool>)
    requires Inv(v) && |frameAvailable| == |events|
    ensures var (u, controls) := Run(v, events, frameAvailable);
      Inv(u) && u.bufferSize == v.bufferSize && u.clear == v.clear &&
      u.backend.Some? == v.backend.Some? &&
      (v.backend.Some? ==> v.backend.value.trace <= u.backend.value.trace) &&
      |controls| <= |events| &&
      (forall i :: 0 <= i < |controls| - 1 ==> controls[i] == Continue) &&
      (|controls| < |events| ==> controls != [] && controls[|controls| - 1] != Continue)
    decreases |events|
  {
    if events != [] {
      StepPreservesInv(v, events[0], frameAvailable[0]);
      EventRolesAnyState(v, events[0], frameAvailable[0]);
      var (w, control) := Step(v, events[0], frameAvailable[0]);
      if control == Continue {
        RunKeepsInvariant(w, events[1..], frameAvailable[1..]);
      }
    }
  }

  // ---------------------------------------------------------------------------
  // The handler
  // ---------------------------------------------------------------------------

  /** The handler. The pixel buffer is owned here: the program shares it
      through a reference count and takes it back for writing with
      `Arc::get_mut(..).unwrap()`. The model assumes that call finds no other
      holder; whether it does depends on the texture upload, which is not part
      of this model, so the panic on a shared buffer is not modelled. */
  class App {
    var state: Option<InitializedState>
    var clear: Option<Color>
    var size: Option<PhysicalSize>
    const pixelBuffer: PixelBuffer

    /** The frame controller, the one object besides the buffer the handler
        changes. */
    ghost function Backend(): set<object>
      reads this
    {
      if state.Some? then {state.value} else {}
    }

    ghost function View(): AppView
      reads this, pixelBuffer.pixels, Backend()
    {
      AppView(
        if state.Some? then Some(BackendView(state.value.config, state.value.indexCount, state.value.trace)) else None,
        clear, size, pixelBuffer.size, pixelBuffer.pixels[..])
    }

    ghost predicate Valid()
      reads this, pixelBuffer.pixels, Backend()
    {
      pixelBuffer.Valid() && Inv(View())
    }

    /** `App::new`: nothing is known yet but the buffer. */
    constructor (pixelBuffer: PixelBuffer)
      requires pixelBuffer.Valid()
      ensures this.pixelBuffer == pixelBuffer
      ensures state == None && clear == None && size == None
      ensures Valid()
    {
      this.pixelBuffer := pixelBuffer;
      state := None;
      clear := None;
      size := None;
    }

    /** `resumed`, with the window's inner size and the surface settings the
        backend picks as parameters. */
    method Resumed(innerSize: PhysicalSize, format: nat, presentMode: nat)
      requires Valid()
      modifies this
      ensures Valid()
      ensures View() == Resume(old(View()), innerSize, format, presentMode)
      ensures old(state).Some? ==> unchanged(this)
      ensures old(state).None? ==> state.Some? && fresh(state.value)
    {
      if state.None? {
        size := Some(innerSize);
        clear := Some(GREEN);
        var initialized := new InitializedState(innerSize, format, presentMode);
        state := Some(initialized);
      }
    }

    /** `window_event`, with the backend's answer to the request for the next
        surface texture as a parameter. */
    method WindowEvent(event: Event, frameAvailable: bool) returns (control: Control)
      requires Valid()
      modifies this, pixelBuffer.pixels, Backend()
      ensures Valid() && state == old(state)
      ensures (View(), control) == Step(old(View()), event, frameAvailable)
    {
      if state.None? {
        return Continue;
      }
      var s := state.value;
      match event
      case Resized(newSize) =>
        size := Some(newSize);
        s.Resize(newSize);
        s.RequestRedraw();
        control := Continue;
      case RedrawRequested =>
        var rendered := s.Render(clear.value, pixelBuffer, frameAvailable);
        if rendered.Panic? {
          return Abort(rendered.fault);
        }
        s.RequestRedraw();
        control := Continue;
      case CloseRequested =>
        control := Exit;
      case CursorMoved(rx, ry) =>
        var target := PhysicalToPixelPosInBuffer(rx, ry, size.value, pixelBuffer.size);
        if target.Panic? {
          return Abort(target.fault);
        }
        match target.value {
          case None =>
            control := Continue;
          case Some(p) =>
            WriteInsideBufferSucceeds(pixelBuffer.pixels[..], pixelBuffer.size, p);
            var i := PixelPosToIndex(p, pixelBuffer.size).value;
            var pixels := pixelBuffer.pixels;
            pixels[i] := 0;
            pixels[i + 1] := 255;
            pixels[i + 2] := 255;
            control := Continue;
        }
      case Other =>
        control := Continue;
    }
  }
}
