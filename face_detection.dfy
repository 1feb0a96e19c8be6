/**
 * The face-mask part of the detector: rejecting a missing frame, loading the
 * face classifier once, and rasterising the detected rectangles into a
 * height-by-width boolean mask. The classifier itself (loading the cascade
 * file, colour conversion, detectMultiScale) is not modelled: whether the
 * load succeeds is a parameter and the detected rectangles are an input.
 */
module FaceDetection {
  import opened Wrappers
  import opened BgraFrame

  const Int32Min: int := -0x8000_0000
  const Int32Max: int := 0x7FFF_FFFF

  /** A C++ `int`. */
  type Int32 = n: int | -0x8000_0000 <= n < 0x8000_0000

  /** A detected face region: origin and extent in pixels (cv::Rect). */
  datatype Rect = Rect(x: Int32, y: Int32, width: Int32, height: Int32)

  /** The runtime errors the detector throws. */
  datatype Error = InvalidFrameData | CascadeLoadError

  /**
   * The usual arithmetic conversion that C++ applies to an `int` compared
   * with a `uint32_t`: the value is taken modulo 2^32.
   */
  function ToU32(v: Int32): (r: U32)
    ensures v >= 0 ==> r == v
    ensures v < 0 ==> r == v + 0x1_0000_0000 && r >= 0x8000_0000
  {
    v % 0x1_0000_0000
  }

  /** The loop bounds `face.x + face.width` and `face.y + face.height` fit an `int`. */
  predicate NoOverflow(f: Rect) {
    Int32Min <= f.x + f.width <= Int32Max && Int32Min <= f.y + f.height <= Int32Max
  }

  /**
   * Pixel (x, y) lies in rectangle f. A rectangle whose origin is negative
   * marks nothing, because its first coordinate already fails the unsigned
   * comparison with the frame size.
   */
  predicate Covers(f: Rect, x: int, y: int) {
    0 <= f.x <= x < f.x + f.width && 0 <= f.y <= y < f.y + f.height
  }

  /** Pixel (x, y) is marked by one of the rectangles, processed in order. */
  predicate Covered(faces: seq<Rect>, x: int, y: int)
    decreases |faces|
  {
    faces != [] && (Covered(faces[..|faces| - 1], x, y) || Covers(faces[|faces| - 1], x, y))
  }

  /** Covered means: some rectangle of the list contains the pixel. */
  lemma {:induction false} CoveredIffSome(faces: seq<Rect>, x: int, y: int)
    ensures Covered(faces, x, y) <==> exists i :: 0 <= i < |faces| && Covers(faces[i], x, y)
    decreases |faces|
  {
    if faces != [] {
      var front := faces[..|faces| - 1];
      CoveredIffSome(front, x, y);
      if Covered(front, x, y) {
        var i :| 0 <= i < |front| && Covers(front[i], x, y);
        assert faces[i] == front[i];
      }
      if exists i :: 0 <= i < |faces| && Covers(faces[i], x, y) {
        var i :| 0 <= i < |faces| && Covers(faces[i], x, y);
        if i < |front| {
          assert front[i] == faces[i];
        }
      }
    }
  }

  /** The order in which the rectangles are processed does not change the mask. */
  lemma CoveredPermutation(a: seq<Rect>, b: seq<Rect>, x: int, y: int)
    requires multiset(a) == multiset(b)
    ensures Covered(a, x, y) == Covered(b, x, y)
  {
    CoveredIffSome(a, x, y);
    CoveredIffSome(b, x, y);
    if Covered(a, x, y) {
      var i :| 0 <= i < |a| && Covers(a[i], x, y);
      assert a[i] in multiset(b);
      var j :| 0 <= j < |b| && b[j] == a[i];
    }
    if Covered(b, x, y) {
      var j :| 0 <= j < |b| && Covers(b[j], x, y);
      assert b[j] in multiset(a);
      var i :| 0 <= i < |a| && a[i] == b[j];
    }
  }

  /** Every entry of the mask says whether the rectangles cover that pixel. */
  ghost predicate MaskMatches(mask: array2<bool>, faces: seq<Rect>)
    reads mask
  {
    forall y, x :: 0 <= y < mask.Length0 && 0 <= x < mask.Length1 ==>
      mask[y, x] == Covered(faces, x, y)
  }

  /** (y, x) comes before (ry, rx) in the row-by-row scan of a rectangle. */
  predicate Before(y: int, x: int, ry: int, rx: int) {
    y < ry || (y == ry && x < rx)
  }

  /**
   * The mask while rectangle f is being scanned: the earlier rectangles are
   * marked, and so is the part of f that comes before (ry, rx).
   */
  ghost predicate MarkedSoFar(mask: array2<bool>, done: seq<Rect>, f: Rect, ry: int, rx: int)
    reads mask
  {
    forall y, x :: 0 <= y < mask.Length0 && 0 <= x < mask.Length1 ==>
      mask[y, x] == (Covered(done, x, y) || (Covers(f, x, y) && Before(y, x, ry, rx)))
  }

  /**
   * Builds the height-by-width mask and sets to true every pixel of every
   * rectangle, clipped to the frame. The frame sizes are at most 2^31, so a
   * negative coordinate converted to unsigned never passes the clip.
   */
  method RasterizeFaces(width: U32, height: U32, faces: seq<Rect>) returns (mask: array2<bool>)
    requires width <= 0x8000_0000 && height <= 0x8000_0000
    requires forall i :: 0 <= i < |faces| ==> NoOverflow(faces[i])
    ensures fresh(mask)
    ensures mask.Length0 == height && mask.Length1 == width
    ensures MaskMatches(mask, faces)
    ensures faces == [] ==> forall y, x :: 0 <= y < height && 0 <= x < width ==> !mask[y, x]
  {
    mask := new bool[height, width]((_, _) => false);
    var i := 0;
    while i < |faces|
      invariant 0 <= i <= |faces|
      invariant MaskMatches(mask, faces[..i])
    {
      var face := faces[i];
      var y: Int32 := face.y;
      while y < face.y + face.height && ToU32(y) < height
        invariant face.y <= y
        invariant face.y < 0 ==> y == face.y
        invariant MarkedSoFar(mask, faces[..i], face, y, face.x)
      {
        var x: Int32 := face.x;
        while x < face.x + face.width && ToU32(x) < width
          invariant face.x <= x
          invariant face.x < 0 ==> x == face.x
          invariant MarkedSoFar(mask, faces[..i], face, y, x)
        {
          mask[y, x] := true;
          x := x + 1;
        }
        y := y + 1;
      }
      assert faces[..i + 1][..i] == faces[..i];
      i := i + 1;
    }
    assert faces[..|faces|] == faces;
  }

  /** The detector's static state: whether the face cascade has been loaded. */
  class FaceDetector {
    var cascadeLoaded: bool
    /** How many times the cascade file has been loaded successfully. */
    ghost var successfulLoads: nat

    /** The cascade is loaded at most once, and the flag records exactly that. */
    ghost predicate Valid()
      reads this
    {
      successfulLoads <= 1 && (cascadeLoaded <==> successfulLoads == 1)
    }

    constructor()
      ensures !cascadeLoaded && successfulLoads == 0
      ensures Valid()
    {
      cascadeLoaded := false;
      successfulLoads := 0;
    }

    /**
     * Loads the cascade unless it is already loaded; `loadSucceeds` is the
     * result the classifier's load would return. A failed load is an error
     * and leaves the flag false, so a later call tries again.
     */
    method InitializeFaceCascade(loadSucceeds: bool) returns (r: Outcome<Error>)
      modifies this
      ensures old(cascadeLoaded) ==> r == Pass && cascadeLoaded && successfulLoads == old(successfulLoads)
      ensures !old(cascadeLoaded) && loadSucceeds ==>
        r == Pass && cascadeLoaded && successfulLoads == old(successfulLoads) + 1
      ensures !old(cascadeLoaded) && !loadSucceeds ==>
        r == Fail(CascadeLoadError) && !cascadeLoaded && successfulLoads == old(successfulLoads)
      ensures r.Pass? <==> cascadeLoaded
      ensures old(Valid()) ==> Valid()
    {
      if !cascadeLoaded {
        if !loadSucceeds {
          return Fail(CascadeLoadError);
        }
        successfulLoads := successfulLoads + 1;
        cascadeLoaded := true;
      }
      r := Pass;
    }

    /**
     * Rejects a missing frame or missing pixel data, makes sure the cascade
     * is loaded, and returns the mask of the detected rectangles `faces`.
     */
    method DetectFacesAndCreateMask(frame: Option<Frame>, faces: seq<Rect>, loadSucceeds: bool)
      returns (r: Result<array2<bool>, Error>)
      requires frame.Some? ==> frame.value.width <= 0x8000_0000 && frame.value.height <= 0x8000_0000
      requires forall i :: 0 <= i < |faces| ==> NoOverflow(faces[i])
      modifies this
      ensures (frame.None? || frame.value.data.None?) ==>
        r == Failure(InvalidFrameData) && unchanged(this)
      ensures frame.Some? && frame.value.data.Some? && !old(cascadeLoaded) && !loadSucceeds ==>
        r == Failure(CascadeLoadError) && !cascadeLoaded && successfulLoads == old(successfulLoads)
      ensures frame.Some? && frame.value.data.Some? && (old(cascadeLoaded) || loadSucceeds) ==>
        r.Success? && cascadeLoaded && fresh(r.value)
        && successfulLoads == old(successfulLoads) + (if old(cascadeLoaded) then 0 else 1)
        && r.value.Length0 == frame.value.height && r.value.Length1 == frame.value.width
        && MaskMatches(r.value, faces)
      ensures old(Valid()) ==> Valid()
    {
      if frame.None? || frame.value.data.None? {
        return Failure(InvalidFrameData);
      }
      var loaded := InitializeFaceCascade(loadSucceeds);
      if loaded.Fail? {
        return Failure(loaded.error);
      }
      var mask := RasterizeFaces(frame.value.width, frame.value.height, faces);
      r := Success(mask);
    }
  }
}
