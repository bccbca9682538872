/** Redaction of one face on the live frame: destructive blur of the clamped
    region, or an outline around the scaled box. */
module Redaction {
  import opened Config
  import opened Geometry

  /** One sample of an 8-bit, 3-channel frame, in BGR order. */
  newtype Channel = v: int | 0 <= v < 256
  datatype Pixel = Bgr(blue: Channel, green: Channel, red: Channel)

  /** A pixel grid as a value, indexed [row][column]. */
  type Grid = seq<seq<Pixel>>

  predicate IsGrid(g: Grid, rows: int, cols: int) {
    |g| == rows && forall i :: 0 <= i < |g| ==> |g[i]| == cols
  }

  predicate IsFrame(g: Grid) {
    IsGrid(g, CaptureHeight, CaptureWidth)
  }

  predicate IsCaptureFrame(frame: array2<Pixel>) {
    frame.Length0 == CaptureHeight && frame.Length1 == CaptureWidth
  }

  /** The contents of a frame buffer as a value; evaluating it is a deep copy (`Mat::clone`). */
  function GridOf(frame: array2<Pixel>): (g: Grid)
    reads frame
    ensures IsGrid(g, frame.Length0, frame.Length1)
    ensures forall i, j :: 0 <= i < frame.Length0 && 0 <= j < frame.Length1 ==> g[i][j] == frame[i, j]
  {
    seq(frame.Length0, i requires 0 <= i < frame.Length0 reads frame =>
      seq(frame.Length1, j requires 0 <= j < frame.Length1 reads frame => frame[i, j]))
  }

  lemma GridExt(a: Grid, b: Grid)
    requires |a| == |b| && forall i :: 0 <= i < |a| ==> |a[i]| == |b[i]|
    requires forall i, j :: 0 <= i < |a| && 0 <= j < |a[i]| ==> a[i][j] == b[i][j]
    ensures a == b
  {
    forall i | 0 <= i < |a|
      ensures a[i] == b[i]
    {
      assert forall j :: 0 <= j < |a[i]| ==> a[i][j] == b[i][j];
    }
  }

  /** The Gaussian smoothing of the library, left uninterpreted: the smoothed
      value, for a ksize x ksize kernel, of the pixel at (row, col) of `src`.
      `src` holds every pixel the kernel can reach; beyond its edge the
      library uses its border value. */
  type GaussianBlur = (Grid, int, int, int) -> Pixel

  /** The arguments of the library's rectangle drawing call. */
  datatype Outline = Outline(rect: Rect, color: Pixel, thickness: int, lineType: int, shift: int)

  /** The library's rectangle drawing, left uninterpreted: the new value of the
      pixel at (row, col), given the outline and the pixel's old value. */
  type RectanglePainter = (Outline, int, int, Pixel) -> Pixel

  /** Colour and stroke of the face box: pure red in BGR order, 2 pixels, 8-connected, no shift. */
  const Red: Pixel := Bgr(0, 0, 255)
  const Thickness: int := 2
  const LineType: int := 8
  const Shift: int := 0

  /** A clamped rectangle that the library accepts as a region of interest. */
  predicate IsRoi(c: Rect) {
    c.InCaptureBounds() && !c.IsEmpty()
  }

  /** `Mat::roi`: the sub-grid of the frame covered by `c`. */
  function Roi(g: Grid, c: Rect): (s: Grid)
    requires IsFrame(g) && IsRoi(c)
    ensures IsGrid(s, c.height, c.width)
    ensures forall i, j :: 0 <= i < c.height && 0 <= j < c.width ==> s[i][j] == g[c.y + i][c.x + j]
  {
    seq(c.height, i requires 0 <= i < c.height =>
      seq(c.width, j requires 0 <= j < c.width => g[c.y + i][c.x + j]))
  }

  /** `copy_to` into a region of interest of the frame: the pixels covered by
      `c` are replaced by `patch`, all others are kept. */
  function Paste(g: Grid, c: Rect, patch: Grid): (r: Grid)
    requires IsFrame(g) && IsRoi(c) && IsGrid(patch, c.height, c.width)
    ensures IsFrame(r)
  {
    seq(CaptureHeight, i requires 0 <= i < CaptureHeight =>
      seq(CaptureWidth, j requires 0 <= j < CaptureWidth =>
        if c.Covers(i, j) then patch[i - c.y][j - c.x] else g[i][j]))
  }

  /** Reading back the region just written gives exactly what was written. */
  lemma PasteThenRoi(g: Grid, c: Rect, patch: Grid)
    requires IsFrame(g) && IsRoi(c) && IsGrid(patch, c.height, c.width)
    ensures Roi(Paste(g, c, patch), c) == patch
  {
    var pasted := Paste(g, c, patch);
    var back := Roi(pasted, c);
    forall i, j | 0 <= i < c.height && 0 <= j < c.width
      ensures back[i][j] == patch[i][j]
    {
      assert c.Covers(c.y + i, c.x + j);
      assert pasted[c.y + i][c.x + j] == patch[i][j];
    }
    GridExt(back, patch);
  }

  /** Writing a region back unchanged leaves the frame unchanged. */
  lemma RoiThenPaste(g: Grid, c: Rect)
    requires IsFrame(g) && IsRoi(c)
    ensures Paste(g, c, Roi(g, c)) == g
  {
    GridExt(Paste(g, c, Roi(g, c)), g);
  }

  /** Writing into a region changes no pixel outside it. */
  lemma PasteKeepsOutside(g: Grid, c: Rect, patch: Grid)
    requires IsFrame(g) && IsRoi(c) && IsGrid(patch, c.height, c.width)
    ensures forall row, col :: InFrame(row, col) && !c.Covers(row, col) ==> Paste(g, c, patch)[row][col] == g[row][col]
  {
  }

  /** Half the blur kernel: how far past a pixel the smoothing reads. */
  const KernelRadius: int := BlurStrength / 2

  /** The part of the frame that smoothing the region `c` reads: `c` grown by
      the kernel radius on every side and cut to the frame. A filter run on a
      region of interest reads the pixels of the frame around it, and uses the
      border value only past the frame's own edge. */
  function KernelReach(c: Rect): (n: Rect)
    requires IsRoi(c)
    ensures IsRoi(n)
    ensures forall row, col :: n.Covers(row, col) <==>
      && InFrame(row, col)
      && c.y - KernelRadius <= row < c.y + c.height + KernelRadius
      && c.x - KernelRadius <= col < c.x + c.width + KernelRadius
  {
    var left := if c.x - KernelRadius < 0 then 0 else c.x - KernelRadius;
    var top := if c.y - KernelRadius < 0 then 0 else c.y - KernelRadius;
    var right := if c.x + c.width + KernelRadius > CaptureWidth then CaptureWidth else c.x + c.width + KernelRadius;
    var bottom := if c.y + c.height + KernelRadius > CaptureHeight then CaptureHeight else c.y + c.height + KernelRadius;
    Rect(left, top, right - left, bottom - top)
  }

  /** `gaussian_blur` of the region `c` of frame `g` with the configured kernel
      size: pixel (i, j) of the result is the smoothing of the pixel at that
      place of `c`, computed over the part of `g` the kernel reaches. */
  function GaussianBlurred(g: Grid, c: Rect, blur: GaussianBlur): (dst: Grid)
    requires IsFrame(g) && IsRoi(c)
    ensures IsGrid(dst, c.height, c.width)
  {
    var n := KernelReach(c);
    var window := Roi(g, n);
    seq(c.height, i requires 0 <= i < c.height =>
      seq(c.width, j requires 0 <= j < c.width => blur(window, BlurStrength, c.y - n.y + i, c.x - n.x + j)))
  }

  /** Outcome of one redaction step. `EmptyRoi` stands for the end of the
      iteration on a clamped rectangle with no pixel in it: the panic of
      `Mat::roi(..).unwrap()` on a negative width or height, or the error the
      blur returns through `?` on a zero one. */
  datatype Status = Ok | EmptyRoi(clamped: Rect)

  /** The frame and status after blur_face on frame `g`: it fails exactly when
      the clamped face has no pixel, and then the frame is as it was. */
  function BlurFaceResult(g: Grid, face: Rect, blur: GaussianBlur): (res: (Grid, Status))
    requires IsFrame(g) && ClampDefined(face)
    ensures IsFrame(res.0)
    ensures res.1 != Ok <==> Clamp(face).IsEmpty()
    ensures res.1 != Ok ==> res == (g, EmptyRoi(Clamp(face)))
  {
    var c := Clamp(face);
    if c.IsEmpty() then (g, EmptyRoi(c))
    else (Paste(g, c, GaussianBlurred(g, c, blur)), Ok)
  }

  /** blur_face changes no pixel outside the clamped face; inside, the region
      becomes the blur of that region computed on the frame as it was before
      the call, not on the pixels being written. */
  lemma BlurFaceEffect(g: Grid, face: Rect, blur: GaussianBlur)
    requires IsFrame(g) && ClampDefined(face)
    ensures forall row, col :: InFrame(row, col) && !Clamp(face).Covers(row, col) ==>
      BlurFaceResult(g, face, blur).0[row][col] == g[row][col]
    ensures !Clamp(face).IsEmpty() ==>
      var c := Clamp(face);
      Roi(BlurFaceResult(g, face, blur).0, c) == GaussianBlurred(g, c, blur)
  {
    var c := Clamp(face);
    if !c.IsEmpty() {
      var patch := GaussianBlurred(g, c, blur);
      PasteKeepsOutside(g, c, patch);
      PasteThenRoi(g, c, patch);
    }
  }

  /** What a blurred pixel becomes depends only on the frame before the call
      within the kernel's reach of the clamped face: two frames that agree
      there agree on the clamped face afterwards. */
  lemma BlurFaceReadsOnlyKernelReach(g: Grid, h: Grid, face: Rect, blur: GaussianBlur)
    requires IsFrame(g) && IsFrame(h) && ClampDefined(face) && !Clamp(face).IsEmpty()
    requires forall row, col :: InFrame(row, col) && KernelReach(Clamp(face)).Covers(row, col) ==> g[row][col] == h[row][col]
    ensures forall row, col :: InFrame(row, col) && Clamp(face).Covers(row, col) ==>
      BlurFaceResult(g, face, blur).0[row][col] == BlurFaceResult(h, face, blur).0[row][col]
  {
    var n := KernelReach(Clamp(face));
    GridExt(Roi(g, n), Roi(h, n));
  }

  /** `copy_to` of a patch into the region `c` of the live frame. */
  method CopyToRoi(frame: array2<Pixel>, c: Rect, patch: Grid)
    requires IsCaptureFrame(frame) && IsRoi(c) && IsGrid(patch, c.height, c.width)
    modifies frame
    ensures GridOf(frame) == Paste(old(GridOf(frame)), c, patch)
  {
    ghost var before := GridOf(frame);
    forall i, j | c.y <= i < c.y + c.height && c.x <= j < c.x + c.width {
      frame[i, j] := patch[i - c.y][j - c.x];
    }
    ghost var after := Paste(before, c, patch);
    forall i, j | 0 <= i < CaptureHeight && 0 <= j < CaptureWidth
      ensures frame[i, j] == after[i][j]
    {
      if c.Covers(i, j) {
        assert frame[i, j] == patch[i - c.y][j - c.x];
      } else {
        assert frame[i, j] == before[i][j];
      }
    }
    GridExt(GridOf(frame), after);
  }

  /** blur_face: snapshot the frame, clamp the face, blur the snapshot's region
      and write the result into the same region of the live frame. */
  method BlurFace(frame: array2<Pixel>, face: Rect, blur: GaussianBlur) returns (status: Status)
    requires IsCaptureFrame(frame) && ClampDefined(face)
    modifies frame
    ensures (GridOf(frame), status) == BlurFaceResult(old(GridOf(frame)), face, blur)
  {
    var frameCopy := GridOf(frame);
    var clampedFace := Clamp(face);
    if clampedFace.IsEmpty() {
      return EmptyRoi(clampedFace);
    }
    // `gaussian_blur` on the view `face_roi` of the snapshot.
    var blurred := GaussianBlurred(frameCopy, clampedFace, blur);
    CopyToRoi(frame, clampedFace, blurred);
    // `frame.copy_to(&mut blurred)`: only the local copy is overwritten.
    blurred := GridOf(frame);
    status := Ok;
  }

  /** The outline draw_box_around_face hands to the library: the face scaled by k, in red. */
  function BoxOutline(face: Rect, k: int): (o: Outline)
    requires ScaleDefined(face, k)
    ensures k == 1 ==> o.rect == face
    ensures o.color == Red && o.thickness == Thickness
  {
    Outline(Scale(face, k), Red, Thickness, LineType, Shift)
  }

  /** The frame after the library has drawn outline `o` on `g`. */
  function Outlined(g: Grid, o: Outline, paint: RectanglePainter): (r: Grid)
    requires IsFrame(g)
    ensures IsFrame(r)
  {
    seq(CaptureHeight, i requires 0 <= i < CaptureHeight =>
      seq(CaptureWidth, j requires 0 <= j < CaptureWidth => paint(o, i, j, g[i][j])))
  }

  /** `imgproc::rectangle` on the live frame. */
  method DrawRectangle(frame: array2<Pixel>, o: Outline, paint: RectanglePainter)
    requires IsCaptureFrame(frame)
    modifies frame
    ensures GridOf(frame) == Outlined(old(GridOf(frame)), o, paint)
  {
    ghost var before := GridOf(frame);
    forall i, j | 0 <= i < CaptureHeight && 0 <= j < CaptureWidth {
      frame[i, j] := paint(o, i, j, frame[i, j]);
    }
    GridExt(GridOf(frame), Outlined(before, o, paint));
  }

  /** draw_box_around_face: scale the face by the inverse scale factor, without
      clamping, and draw it as a red outline. */
  method DrawBoxAroundFace(frame: array2<Pixel>, face: Rect, k: int, paint: RectanglePainter)
    requires IsCaptureFrame(frame) && ScaleDefined(face, k)
    modifies frame
    ensures GridOf(frame) == Outlined(old(GridOf(frame)), BoxOutline(face, k), paint)
  {
    var scaledFace := Scale(face, k);
    DrawRectangle(frame, Outline(scaledFace, Red, Thickness, LineType, Shift), paint);
  }
}
