/**
 * GLRenderer: the single pending-frame slot written by updateFrame and
 * drained by onDrawFrame, and updateTexture, which reallocates the staging
 * buffer and the texture storage only when there is no buffer yet or the
 * frame size changes, and otherwise only uploads a sub-image.
 *
 * The GL calls are not performed; the renderer records them in fields:
 * how many times texture storage was allocated (glTexImage2D), the size of
 * the storage the current texture has, every sub-image upload
 * (glTexSubImage2D) and every quad draw.
 */
module Render {
  import opened Bytes

  /** A processed frame waiting to be shown. */
  datatype FrameData = FrameData(bytes: seq<byte>, width: nat, height: nat)

  /** One glTexSubImage2D call: target texture, region, the bytes read from
      the staging buffer, and whether the texture had storage of exactly
      that size (otherwise GL rejects the call and nothing is shown). */
  datatype Upload = Upload(texture: int, width: nat, height: nat, data: seq<byte>, onStorage: bool)

  class GLRenderer {
    var textureId: int
    var frameBuffer: array?<byte>
    var frameWidth: nat
    var frameHeight: nat
    var pendingFrame: Option<FrameData>

    /** glTexImage2D calls so far. */
    var reallocations: nat
    /** Size of the storage of texture textureId in the current GL context. */
    var storage: Option<(nat, nat)>
    /** glTexSubImage2D calls so far, oldest first. */
    var uploads: seq<Upload>
    /** quad.draw calls so far. */
    var draws: nat

    /** The staging buffer always holds exactly one frame of the recorded size. */
    ghost predicate Valid()
      reads this
    {
      frameBuffer != null ==> frameBuffer.Length == frameWidth * frameHeight * 4
    }

    /** The texture's storage matches the staging buffer's frame size. */
    predicate TextureInSync()
      reads this
    {
      frameBuffer != null ==> storage == Some((frameWidth, frameHeight))
    }

    /** A renderer before its surface exists. */
    constructor ()
      ensures Valid() && TextureInSync()
      ensures textureId == 0 && frameBuffer == null && frameWidth == 0 && frameHeight == 0
      ensures pendingFrame == None && reallocations == 0 && storage == None && uploads == [] && draws == 0
    {
      textureId := 0;
      frameBuffer := null;
      frameWidth, frameHeight := 0, 0;
      pendingFrame := None;
      reallocations := 0;
      storage := None;
      uploads := [];
      draws := 0;
    }

    /** onSurfaceCreated as written: a new GL context and a new texture name
        `texture` (genTexture), which has no storage yet; the staging buffer
        and the recorded frame size are kept. */
    method OnSurfaceCreated(texture: int)
      requires Valid()
      modifies this
      ensures Valid()
      ensures textureId == texture && storage == None
      ensures frameBuffer == old(frameBuffer) && frameWidth == old(frameWidth) && frameHeight == old(frameHeight)
      ensures pendingFrame == old(pendingFrame) && reallocations == old(reallocations)
      ensures uploads == old(uploads) && draws == old(draws)
    {
      textureId := texture;
      storage := None;
    }

    /** onSurfaceCreated that also drops the staging buffer, so that the next
        frame reallocates the new texture's storage whatever its size. */
    method OnSurfaceCreatedFixed(texture: int)
      requires Valid()
      modifies this
      ensures Valid() && TextureInSync()
      ensures textureId == texture && storage == None && frameBuffer == null
      ensures frameWidth == old(frameWidth) && frameHeight == old(frameHeight)
      ensures pendingFrame == old(pendingFrame) && reallocations == old(reallocations)
      ensures uploads == old(uploads) && draws == old(draws)
    {
      textureId := texture;
      storage := None;
      frameBuffer := null;
    }

    /** updateFrame: the frame replaces whatever was pending. */
    method UpdateFrame(bytes: seq<byte>, w: nat, h: nat)
      modifies this`pendingFrame
      ensures pendingFrame == Some(FrameData(bytes, w, h))
    {
      pendingFrame := Some(FrameData(bytes, w, h));
    }

    /** updateTexture. Reallocation happens exactly when there is no staging
        buffer or the size differs; the upload then covers the whole
        frameWidth × frameHeight region. `overflow` is the
        BufferOverflowException of put when the bytes do not fit, after any
        reallocation and before the upload. */
    method UpdateTexture(bytes: seq<byte>, w: nat, h: nat) returns (overflow: bool)
      requires Valid()
      modifies this, frameBuffer
      ensures Valid() && frameBuffer != null
      ensures frameWidth == w && frameHeight == h && frameBuffer.Length == w * h * 4
      ensures textureId == old(textureId) && pendingFrame == old(pendingFrame) && draws == old(draws)
      ensures var realloc := old(frameBuffer) == null || old(frameWidth) != w || old(frameHeight) != h;
              (realloc ==> fresh(frameBuffer) && reallocations == old(reallocations) + 1 && storage == Some((w, h))) &&
              (!realloc ==> frameBuffer == old(frameBuffer) && reallocations == old(reallocations) && storage == old(storage)) &&
              var staged := if realloc then Zeros(w * h * 4) else old(frameBuffer[..]);
              (overflow <==> |bytes| > w * h * 4) &&
              (overflow ==> frameBuffer[..] == staged && uploads == old(uploads)) &&
              (!overflow ==> frameBuffer[..] == bytes + staged[|bytes|..] &&
                             uploads == old(uploads) + [Upload(textureId, w, h, frameBuffer[..], storage == Some((w, h)))])
      ensures old(TextureInSync()) ==> TextureInSync()
    {
      if frameBuffer == null || frameWidth != w || frameHeight != h {
        frameWidth := w;
        frameHeight := h;
        frameBuffer := new byte[w * h * 4](_ => 0);
        reallocations := reallocations + 1;
        storage := Some((w, h));
      }
      var buffer := frameBuffer;
      if |bytes| > buffer.Length {
        return true;
      }
      ghost var staged := buffer[..];
      forall k | 0 <= k < |bytes| {
        buffer[k] := bytes[k];
      }
      assert buffer[..] == bytes + staged[|bytes|..];
      uploads := uploads + [Upload(textureId, frameWidth, frameHeight, buffer[..], storage == Some((frameWidth, frameHeight)))];
      overflow := false;
    }

    /** onDrawFrame. A pending frame is uploaded and the slot cleared; with
        none pending the texture state is left alone. The quad is drawn
        whenever a staging buffer exists. `overflow` is the exception of
        updateTexture, which leaves the slot and skips the draw. */
    method OnDrawFrame() returns (overflow: bool)
      requires Valid()
      modifies this, frameBuffer
      ensures Valid()
      ensures textureId == old(textureId)
      ensures old(pendingFrame).None? ==>
                !overflow && pendingFrame == None &&
                frameBuffer == old(frameBuffer) && frameWidth == old(frameWidth) && frameHeight == old(frameHeight) &&
                (frameBuffer != null ==> frameBuffer[..] == old(frameBuffer[..])) &&
                reallocations == old(reallocations) && storage == old(storage) && uploads == old(uploads)
      ensures old(pendingFrame).Some? ==>
                var f := old(pendingFrame).value;
                var realloc := old(frameBuffer) == null || old(frameWidth) != f.width || old(frameHeight) != f.height;
                frameBuffer != null && frameWidth == f.width && frameHeight == f.height &&
                (realloc ==> fresh(frameBuffer) && reallocations == old(reallocations) + 1 && storage == Some((f.width, f.height))) &&
                (!realloc ==> frameBuffer == old(frameBuffer) && reallocations == old(reallocations) && storage == old(storage)) &&
                var staged := if realloc then Zeros(f.width * f.height * 4) else old(frameBuffer[..]);
                (overflow <==> |f.bytes| > f.width * f.height * 4) &&
                (overflow ==> pendingFrame == old(pendingFrame) && uploads == old(uploads) && frameBuffer[..] == staged) &&
                (!overflow ==> pendingFrame == None && frameBuffer[..] == f.bytes + staged[|f.bytes|..] &&
                               uploads == old(uploads) + [Upload(textureId, f.width, f.height, frameBuffer[..], TextureInSync())])
      ensures draws == old(draws) + (if !overflow && frameBuffer != null then 1 else 0)
      ensures old(TextureInSync()) ==> TextureInSync()
    {
      if pendingFrame.Some? {
        var frame := pendingFrame.value;
        overflow := UpdateTexture(frame.bytes, frame.width, frame.height);
        if overflow {
          return;
        }
        pendingFrame := None;
      }
      overflow := false;
      if frameBuffer != null {
        draws := draws + 1;
      }
    }
  }

  // ---------------------------------------------------------------------
  // Runs of the renderer, as the camera thread and the GL thread drive it
  // ---------------------------------------------------------------------

  /** Hands a full frame of the given size to the renderer and draws once. */
  method ShowFrame(r: GLRenderer, w: nat, h: nat)
    requires r.Valid()
    modifies r, r.frameBuffer
    ensures r.Valid() && r.frameBuffer != null && r.frameWidth == w && r.frameHeight == h
    ensures r.frameBuffer == old(r.frameBuffer) || fresh(r.frameBuffer)
    ensures r.textureId == old(r.textureId)
    ensures r.reallocations == old(r.reallocations) + (if old(r.frameBuffer) == null || old(r.frameWidth) != w || old(r.frameHeight) != h then 1 else 0)
    ensures |r.uploads| == |old(r.uploads)| + 1 && r.uploads[..|old(r.uploads)|] == old(r.uploads)
    ensures r.uploads[|old(r.uploads)|].onStorage == r.TextureInSync() && r.uploads[|old(r.uploads)|].texture == r.textureId
    ensures r.storage == if old(r.frameBuffer) == null || old(r.frameWidth) != w || old(r.frameHeight) != h then Some((w, h)) else old(r.storage)
    ensures r.frameBuffer[..] == Zeros(w * h * 4) && r.uploads[|old(r.uploads)|].data == Zeros(w * h * 4)
    ensures r.pendingFrame == None && r.draws == old(r.draws) + 1
  {
    r.UpdateFrame(Zeros(w * h * 4), w, h);
    var overflow := r.OnDrawFrame();
  }

  /** Frames of 640×480, 640×480, 320×240, 320×240 allocate texture storage
      twice: for the first frame and for the first smaller one. */
  method ReallocationsForSizeChange() returns (n: nat)
    ensures n == 2
  {
    var r := new GLRenderer();
    r.OnSurfaceCreated(1);
    ShowFrame(r, 640, 480);
    ShowFrame(r, 640, 480);
    ShowFrame(r, 320, 240);
    ShowFrame(r, 320, 240);
    n := r.reallocations;
  }

  /** Latest frame wins: two updateFrame calls before a draw upload only the
      second frame, and a further draw with nothing pending uploads nothing. */
  method LatestFrameWins(f1: FrameData, f2: FrameData) returns (shown: seq<Upload>)
    requires |f2.bytes| == f2.width * f2.height * 4
    ensures |shown| == 1
    ensures shown[0].width == f2.width && shown[0].height == f2.height && shown[0].data == f2.bytes
  {
    var r := new GLRenderer();
    r.OnSurfaceCreated(1);
    r.UpdateFrame(f1.bytes, f1.width, f1.height);
    r.UpdateFrame(f2.bytes, f2.width, f2.height);
    var overflow := r.OnDrawFrame();
    overflow := r.OnDrawFrame();
    shown := r.uploads;
  }

  /** A frame shorter than the staging buffer overwrites only its own bytes:
      the rest of the upload is the tail of the previous frame of that size. */
  method ShortFrameKeepsTail() returns (last: Upload)
    ensures last.data == [7, 1, 1, 1, 1, 1, 1, 1] && last.width == 2 && last.height == 1
  {
    var r := new GLRenderer();
    r.OnSurfaceCreated(1);
    r.UpdateFrame([1, 1, 1, 1, 1, 1, 1, 1], 2, 1);
    var overflow := r.OnDrawFrame();
    r.UpdateFrame([7], 2, 1);
    overflow := r.OnDrawFrame();
    last := r.uploads[|r.uploads| - 1];
  }

  /** As written, recreating the surface (a lost GL context) and then showing
      a frame of the unchanged size uploads into a texture without storage. */
  method SurfaceRecreationAsWritten() returns (last: Upload)
    ensures !last.onStorage && last.texture == 2
  {
    var r := new GLRenderer();
    r.OnSurfaceCreated(1);
    ShowFrame(r, 640, 480);
    r.OnSurfaceCreated(2);
    ShowFrame(r, 640, 480);
    last := r.uploads[|r.uploads| - 1];
  }

  /** With the staging buffer dropped on surface creation, the same run
      reallocates the new texture and every upload lands on storage. */
  method SurfaceRecreationFixed() returns (uploads: seq<Upload>)
    ensures |uploads| == 2 && uploads[0].onStorage && uploads[1].onStorage && uploads[1].texture == 2
  {
    var r := new GLRenderer();
    r.OnSurfaceCreatedFixed(1);
    ShowFrame(r, 640, 480);
    r.OnSurfaceCreatedFixed(2);
    ShowFrame(r, 640, 480);
    uploads := r.uploads;
  }
}
