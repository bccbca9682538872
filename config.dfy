/** Fixed configuration of the redaction pipeline (src/constants.rs). */
module Config {

  /** Capture resolution of the session: every frame is CaptureHeight rows by CaptureWidth columns. */
  const CaptureWidth: int := 640
  const CaptureHeight: int := 480

  /** Side of the square Gaussian kernel used when a face is blurred. */
  const BlurStrength: int := 177

  /** Range of the source's `i32` fields and arithmetic. */
  const I32Min: int := -0x8000_0000
  const I32Max: int := 0x7fff_ffff

  predicate IsI32(v: int) {
    I32Min <= v <= I32Max
  }
}
