/** The confidence filter of the YuNet detection adapter. */
module Detection {
  import opened Geometry

  /** One row of the YuNet output matrix, reduced to the columns the adapter
      reads: 0 to 3 (the box) and 14 (the score), already converted to integers. */
  datatype DetectionRow = DetectionRow(x1: int, y1: int, w: int, h: int, confidence: int)

  function FaceOf(row: DetectionRow): Rect {
    Rect(row.x1, row.y1, row.w, row.h)
  }

  /** Indices of the rows whose confidence is strictly above the threshold,
      collected front to back. */
  function KeptRows(rows: seq<DetectionRow>, threshold: int): (kept: seq<nat>)
    ensures |kept| <= |rows|
    ensures forall k :: 0 <= k < |kept| ==> kept[k] < |rows|
  {
    if rows == [] then []
    else
      var last := |rows| - 1;
      KeptRows(rows[..last], threshold) + (if rows[last].confidence > threshold then [last] else [])
  }

  /** The faces the adapter reports: the boxes of the kept rows, in row order. */
  function Selected(rows: seq<DetectionRow>, threshold: int): seq<Rect> {
    var kept := KeptRows(rows, threshold);
    seq(|kept|, k requires 0 <= k < |kept| => FaceOf(rows[kept[k]]))
  }

  /** A row is kept exactly when its confidence is strictly above the threshold. */
  lemma {:induction false} KeptRowsExact(rows: seq<DetectionRow>, threshold: int)
    ensures forall i :: i in KeptRows(rows, threshold) <==> 0 <= i < |rows| && rows[i].confidence > threshold
  {
    if rows != [] {
      var last := |rows| - 1;
      KeptRowsExact(rows[..last], threshold);
      assert forall i :: 0 <= i < last ==> rows[..last][i] == rows[i];
    }
  }

  /** Kept rows appear in strictly ascending row order, hence each at most once. */
  lemma {:induction false} KeptRowsAscending(rows: seq<DetectionRow>, threshold: int)
    ensures forall a, b :: 0 <= a < b < |KeptRows(rows, threshold)| ==>
      KeptRows(rows, threshold)[a] < KeptRows(rows, threshold)[b]
  {
    if rows != [] {
      var last := |rows| - 1;
      KeptRowsAscending(rows[..last], threshold);
    }
  }

  /** Looking at one more row appends its box exactly when it passes the filter. */
  lemma SelectedSnoc(rows: seq<DetectionRow>, i: nat, threshold: int)
    requires i < |rows|
    ensures Selected(rows[..i + 1], threshold) ==
      Selected(rows[..i], threshold) + (if rows[i].confidence > threshold then [FaceOf(rows[i])] else [])
  {
    var longer := rows[..i + 1];
    assert longer[..i] == rows[..i];
    var before := KeptRows(rows[..i], threshold);
    assert KeptRows(longer, threshold) == before + (if rows[i].confidence > threshold then [i] else []);
  }

  /** When no row beats the threshold, no face is reported. */
  lemma {:induction false} NoneAboveThreshold(rows: seq<DetectionRow>, threshold: int)
    requires forall i :: 0 <= i < |rows| ==> rows[i].confidence <= threshold
    ensures KeptRows(rows, threshold) == []
    ensures Selected(rows, threshold) == []
  {
    if rows != [] {
      NoneAboveThreshold(rows[..|rows| - 1], threshold);
    }
  }

  /** detect_faces_yunet after the detector has run: walk the rows in order and
      keep the box of every row whose confidence is strictly above the threshold. */
  method DetectFacesYunet(detections: seq<DetectionRow>, threshold: int) returns (faces: seq<Rect>)
    ensures faces == Selected(detections, threshold)
  {
    faces := [];
    for i := 0 to |detections|
      invariant faces == Selected(detections[..i], threshold)
    {
      var row := detections[i];
      if row.confidence > threshold {
        faces := faces + [FaceOf(row)];
      }
      SelectedSnoc(detections, i, threshold);
    }
    assert detections[..|detections|] == detections;
  }
}
