/** One iteration of frame_loop between capture and display: detect faces,
    then apply exactly one redaction action to every face, in list order. */
module FrameLoop {
  import opened Geometry
  import opened Detection
  import opened Redaction

  /** The USE_BLUR switch: destructive blur, or an outline around the face. */
  datatype Policy = Blur | Box

  /** The i32 arithmetic of the action chosen for `face` does not overflow. */
  predicate ActionDefined(policy: Policy, face: Rect, k: int) {
    match policy
    case Blur => ClampDefined(face)
    case Box => ScaleDefined(face, k)
  }

  predicate AllActionsDefined(policy: Policy, faces: seq<Rect>, k: int) {
    forall face :: face in faces ==> ActionDefined(policy, face, k)
  }

  /** The frame and status after the one action chosen by `policy` for `face`. */
  function Redact(g: Grid, face: Rect, policy: Policy, k: int, blur: GaussianBlur, paint: RectanglePainter): (res: (Grid, Status))
    requires IsFrame(g) && ActionDefined(policy, face, k)
    ensures IsFrame(res.0)
    ensures policy == Box ==> res.1 == Ok
  {
    match policy
    case Blur => BlurFaceResult(g, face, blur)
    case Box => (Outlined(g, BoxOutline(face, k), paint), Ok)
  }

  /** The per-face loop: actions in list order; the first failing action ends
      the iteration with its status, leaving the frame as the earlier actions made it. */
  function RedactAll(g: Grid, faces: seq<Rect>, policy: Policy, k: int, blur: GaussianBlur, paint: RectanglePainter): (res: (Grid, Status))
    requires IsFrame(g) && AllActionsDefined(policy, faces, k)
    ensures IsFrame(res.0)
    ensures res.1 != Ok ==> policy == Blur
    ensures res.1 != Ok ==>
      exists face :: face in faces && ClampDefined(face) && Clamp(face).IsEmpty() && res.1 == EmptyRoi(Clamp(face))
    decreases |faces|
  {
    if faces == [] then (g, Ok)
    else
      var step := Redact(g, faces[0], policy, k, blur, paint);
      if step.1 != Ok then step
      else RedactAll(step.0, faces[1..], policy, k, blur, paint)
  }

  /** The pixel lies in the clamped region of some face. */
  predicate InClampedRegion(faces: seq<Rect>, row: int, col: int) {
    exists i :: 0 <= i < |faces| && ClampDefined(faces[i]) && Clamp(faces[i]).Covers(row, col)
  }

  /** Every face clamps to a region with at least one pixel. */
  predicate NoEmptyRegion(faces: seq<Rect>) {
    forall face :: face in faces ==> ClampDefined(face) && !Clamp(face).IsEmpty()
  }

  /** Redacting a concatenation is redacting the first part, then (if that
      succeeded) the second part: faces are handled strictly in list order. */
  lemma {:induction false} RedactAllAppend(g: Grid, a: seq<Rect>, b: seq<Rect>, policy: Policy, k: int,
                                           blur: GaussianBlur, paint: RectanglePainter)
    requires IsFrame(g) && AllActionsDefined(policy, a, k) && AllActionsDefined(policy, b, k)
    ensures AllActionsDefined(policy, a + b, k)
    ensures RedactAll(g, a + b, policy, k, blur, paint) ==
      var first := RedactAll(g, a, policy, k, blur, paint);
      if first.1 != Ok then first else RedactAll(first.0, b, policy, k, blur, paint)
    decreases |a|
  {
    if a == [] {
      assert a + b == b;
    } else {
      assert (a + b)[0] == a[0];
      assert (a + b)[1..] == a[1..] + b;
      var step := Redact(g, a[0], policy, k, blur, paint);
      if step.1 == Ok {
        RedactAllAppend(step.0, a[1..], b, policy, k, blur, paint);
      }
    }
  }

  /** The per-face loop fails only under the blur policy, and there exactly
      when some face clamps to an empty region. */
  lemma {:induction false} RedactAllStatus(g: Grid, faces: seq<Rect>, policy: Policy, k: int,
                                           blur: GaussianBlur, paint: RectanglePainter)
    requires IsFrame(g) && AllActionsDefined(policy, faces, k)
    ensures RedactAll(g, faces, policy, k, blur, paint).1 == Ok <==> policy == Box || NoEmptyRegion(faces)
    decreases |faces|
  {
    if faces != [] {
      var step := Redact(g, faces[0], policy, k, blur, paint);
      assert faces == [faces[0]] + faces[1..];
      if step.1 == Ok {
        RedactAllStatus(step.0, faces[1..], policy, k, blur, paint);
      }
    }
  }

  /** Under the blur policy the loop changes no pixel outside the union of the
      clamped face regions, whether it succeeds or stops early. */
  lemma {:induction false} BlurChangesOnlyFaceRegions(g: Grid, faces: seq<Rect>, k: int,
                                                      blur: GaussianBlur, paint: RectanglePainter)
    requires IsFrame(g) && AllActionsDefined(Blur, faces, k)
    ensures forall row, col :: InFrame(row, col) && !InClampedRegion(faces, row, col) ==>
      RedactAll(g, faces, Blur, k, blur, paint).0[row][col] == g[row][col]
    decreases |faces|
  {
    if faces != [] {
      var step := Redact(g, faces[0], Blur, k, blur, paint);
      BlurFaceEffect(g, faces[0], blur);
      if step.1 == Ok {
        BlurChangesOnlyFaceRegions(step.0, faces[1..], k, blur, paint);
        forall row, col | InFrame(row, col) && !InClampedRegion(faces, row, col)
          ensures RedactAll(g, faces, Blur, k, blur, paint).0[row][col] == g[row][col]
        {
          forall i | 0 <= i < |faces[1..]|
            ensures !(ClampDefined(faces[1..][i]) && Clamp(faces[1..][i]).Covers(row, col))
          {
            assert faces[1..][i] == faces[i + 1];
          }
          assert !Clamp(faces[0]).Covers(row, col);
        }
      }
    }
  }

  /** The per-face loops of frame_loop: for each face in order, blur it or box it. */
  method RedactFaces(frame: array2<Pixel>, faces: seq<Rect>, policy: Policy, k: int,
                     blur: GaussianBlur, paint: RectanglePainter) returns (status: Status)
    requires IsCaptureFrame(frame) && AllActionsDefined(policy, faces, k)
    modifies frame
    ensures (GridOf(frame), status) == RedactAll(old(GridOf(frame)), faces, policy, k, blur, paint)
  {
    ghost var start := GridOf(frame);
    var i := 0;
    while i < |faces|
      invariant 0 <= i <= |faces|
      invariant RedactAll(start, faces, policy, k, blur, paint) == RedactAll(GridOf(frame), faces[i..], policy, k, blur, paint)
    {
      var face := faces[i];
      assert faces[i..][0] == face && faces[i..][1..] == faces[i + 1..];
      assert face in faces;
      if policy == Blur {
        status := BlurFace(frame, face, blur);
        if status != Ok {
          return;
        }
      } else {
        DrawBoxAroundFace(frame, face, k, paint);
      }
      i := i + 1;
    }
    status := Ok;
  }

  /** The YuNet branch of one iteration: filter the detector's rows by
      confidence, then redact every kept face. */
  method ProcessFrame(frame: array2<Pixel>, detections: seq<DetectionRow>, threshold: int, policy: Policy, k: int,
                      blur: GaussianBlur, paint: RectanglePainter) returns (status: Status)
    requires IsCaptureFrame(frame)
    requires AllActionsDefined(policy, Selected(detections, threshold), k)
    modifies frame
    ensures (GridOf(frame), status) ==
      RedactAll(old(GridOf(frame)), Selected(detections, threshold), policy, k, blur, paint)
  {
    var faces := DetectFacesYunet(detections, threshold);
    status := RedactFaces(frame, faces, policy, k, blur, paint);
  }

  /** A frame whose detections all score at or below the threshold comes back unchanged. */
  lemma BelowThresholdLeavesFrame(g: Grid, detections: seq<DetectionRow>, threshold: int, policy: Policy, k: int,
                                  blur: GaussianBlur, paint: RectanglePainter)
    requires IsFrame(g)
    requires forall i :: 0 <= i < |detections| ==> detections[i].confidence <= threshold
    ensures Selected(detections, threshold) == []
    ensures RedactAll(g, Selected(detections, threshold), policy, k, blur, paint) == (g, Ok)
  {
    NoneAboveThreshold(detections, threshold);
  }

  /** One confident face at (100, 100), 100 x 100, under the blur policy: the
      iteration succeeds, nothing outside that square changes, and the square
      holds the blur of its former contents. */
  lemma OneFaceBlurScenario(g: Grid, blur: GaussianBlur, paint: RectanglePainter)
    requires IsFrame(g)
    ensures var face := Rect(100, 100, 100, 100);
      var res := RedactAll(g, Selected([DetectionRow(100, 100, 100, 100, 95)], 70), Blur, 1, blur, paint);
      && res.1 == Ok
      && (forall row, col :: InFrame(row, col) && !face.Covers(row, col) ==> res.0[row][col] == g[row][col])
      && Roi(res.0, face) == GaussianBlurred(g, face, blur)
  {
    var rows := [DetectionRow(100, 100, 100, 100, 95)];
    var face := Rect(100, 100, 100, 100);
    assert rows[..0] == [];
    assert KeptRows(rows, 70) == [0];
    assert Selected(rows, 70) == [face];
    assert Clamp(face) == face;
    BlurFaceEffect(g, face, blur);
  }

  /** A confident face starting past the right edge clamps to a negative width;
      blur_face has no guard, so the iteration fails and the frame is untouched. */
  lemma PastRightEdgeScenario(g: Grid, blur: GaussianBlur, paint: RectanglePainter)
    requires IsFrame(g)
    ensures RedactAll(g, Selected([DetectionRow(700, 10, 50, 50, 95)], 70), Blur, 1, blur, paint)
      == (g, EmptyRoi(Rect(700, 10, -60, 50)))
  {
    var rows := [DetectionRow(700, 10, 50, 50, 95)];
    assert rows[..0] == [];
    assert KeptRows(rows, 70) == [0];
    assert Selected(rows, 70) == [Rect(700, 10, 50, 50)];
  }
}
