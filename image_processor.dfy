/**
 * Dot detection: a list of dots built in three stages, each appending to
 * what the earlier ones found.  Hough circles with a dark centre come first;
 * when fewer than five were found, round contours follow; when fewer than
 * three dots are then held, blob keypoints follow.  A contour or blob centre
 * is appended only when no dot already held lies within 10 pixels of it on
 * both axes.  The detectors themselves (Hough transform, contour finder,
 * blob detector) are library calls whose outputs are the inputs here.
 */
module ImageProcessor {
  import opened Models

  /** An image as its dimensions; its pixel data only reaches the model through the detectors' outputs. */
  datatype Image = Image(height: nat, width: nat, channels: nat)
  {
    /** The number of array elements, `image.size`. */
    function Size(): nat
    {
      height * width * channels
    }
  }

  /** A Hough circle, rounded to unsigned integers, with the grey level at its centre. */
  datatype Circle = Circle(x: nat, y: nat, radius: nat, centerIntensity: int)

  /**
   * A contour as the library measures it: area, closed arc length, the
   * circularity 4 * pi * area / perimeter^2, and the moments m00, m10, m01.
   */
  datatype Contour = Contour(area: real, perimeter: real, circularity: real, m00: real, m10: real, m01: real)

  /** A blob keypoint: centre and diameter. */
  datatype Keypoint = Keypoint(x: real, y: real, size: real)

  /** `int(r)`: the integer part, rounding toward zero. */
  function Trunc(r: real): (t: int)
    ensures r >= 0.0 ==> t as real <= r < t as real + 1.0
    ensures r < 0.0 ==> t as real - 1.0 < r <= t as real
  {
    if r >= 0.0 then r.Floor else -((-r).Floor)
  }

  /**
   * `preprocess_image`: no image gives no image.  The binarisation of an
   * image (grey conversion, blur, adaptive threshold) is a library call,
   * given here as `binarize`.
   */
  function PreprocessImage(image: Option<Image>, binarize: Image -> Image): (r: Option<Image>)
    ensures r.None? <==> image.None?
  {
    if image.None? then None else Some(binarize(image.value))
  }

  // ---------------------------------------------------------------------
  // The reference definition of the cascade

  /** The Hough dots: circles with a dark centre, in order, with their own radius. */
  function HoughDots(circles: seq<Circle>): seq<Dot>
  {
    if |circles| == 0 then []
    else
      var c := circles[|circles| - 1];
      HoughDots(circles[..|circles| - 1]) + (if c.centerIntensity < 100 then [Dot(c.x, c.y, c.radius)] else [])
  }

  /** The shape filter: dot-sized area, a perimeter, round enough, and a non-zero mass. */
  predicate RoundContour(c: Contour)
  {
    20.0 < c.area < 1000.0 && c.perimeter > 0.0 && c.circularity > 0.5 && c.m00 != 0.0
  }

  /** The dot a contour stands for: its centroid, radius 5. */
  function ContourDot(c: Contour): Dot
    requires c.m00 != 0.0
  {
    Dot(Trunc(c.m10 / c.m00), Trunc(c.m01 / c.m00), 5)
  }

  function ContourCandidates(contours: seq<Contour>): seq<Dot>
  {
    if |contours| == 0 then []
    else
      var c := contours[|contours| - 1];
      ContourCandidates(contours[..|contours| - 1]) + (if RoundContour(c) then [ContourDot(c)] else [])
  }

  /** The dot a keypoint stands for: its centre, half its diameter as radius. */
  function BlobDot(k: Keypoint): Dot
  {
    Dot(Trunc(k.x), Trunc(k.y), Trunc(k.size / 2.0))
  }

  function BlobCandidates(keypoints: seq<Keypoint>): seq<Dot>
  {
    if |keypoints| == 0 then []
    else BlobCandidates(keypoints[..|keypoints| - 1]) + [BlobDot(keypoints[|keypoints| - 1])]
  }

  /** Dot d lies within 10 pixels of (x, y) on both axes. */
  predicate Near(d: Dot, x: int, y: int)
  {
    -10 < d.x - x < 10 && -10 < d.y - y < 10
  }

  predicate NearAny(dots: seq<Dot>, x: int, y: int)
  {
    exists k :: 0 <= k < |dots| && Near(dots[k], x, y)
  }

  /** Appends the candidates in order, each unless a dot held by then is near it. */
  function AppendDistinct(acc: seq<Dot>, cands: seq<Dot>): seq<Dot>
  {
    if |cands| == 0 then acc
    else
      var held := AppendDistinct(acc, cands[..|cands| - 1]);
      var c := cands[|cands| - 1];
      if NearAny(held, c.x, c.y) then held else held + [c]
  }

  /** The dots held after the contour stage. */
  function AfterContours(circles: seq<Circle>, contours: seq<Contour>): seq<Dot>
  {
    var hough := HoughDots(circles);
    if |hough| < 5 then AppendDistinct(hough, ContourCandidates(contours)) else hough
  }

  /** `detect_dots` on the detectors' outputs for the image. */
  function DetectDotsSpec(image: Option<Image>, circles: seq<Circle>, contours: seq<Contour>, keypoints: seq<Keypoint>): seq<Dot>
  {
    if image.None? || image.value.Size() == 0 then []
    else
      var held := AfterContours(circles, contours);
      if |held| < 3 then AppendDistinct(held, BlobCandidates(keypoints)) else held
  }

  // ---------------------------------------------------------------------
  // The cascade, stage by stage

  /**
   * `detect_dots`: the three stages as the loops that append to `dots`.
   * The outputs of the Hough transform, the contour finder and the blob
   * detector on the grey image are the parameters.
   */
  method DetectDots(image: Option<Image>, circles: seq<Circle>, contours: seq<Contour>, keypoints: seq<Keypoint>)
    returns (dots: seq<Dot>)
    ensures dots == DetectDotsSpec(image, circles, contours, keypoints)
  {
    if image.None? || image.value.Size() == 0 {
      return [];
    }
    dots := [];
    for i := 0 to |circles|
      invariant dots == HoughDots(circles[..i])
    {
      var c := circles[i];
      if c.centerIntensity < 100 {
        dots := dots + [Dot(c.x, c.y, c.radius)];
      }
      assert circles[..i + 1][..i] == circles[..i];
    }
    assert circles[..|circles|] == circles;
    ghost var hough := dots;
    if |dots| < 5 {
      for i := 0 to |contours|
        invariant dots == AppendDistinct(hough, ContourCandidates(contours[..i]))
      {
        var c := contours[i];
        assert contours[..i + 1][..i] == contours[..i];
        ghost var cands := ContourCandidates(contours[..i]);
        assert ContourCandidates(contours[..i + 1]) ==
          cands + (if RoundContour(c) then [ContourDot(c)] else []);
        assert !RoundContour(c) ==> ContourCandidates(contours[..i + 1]) == cands;
        if 20.0 < c.area < 1000.0 {
          if c.perimeter > 0.0 {
            if c.circularity > 0.5 {
              if c.m00 != 0.0 {
                var x := Trunc(c.m10 / c.m00);
                var y := Trunc(c.m01 / c.m00);
                assert (cands + [Dot(x, y, 5)])[..|cands|] == cands;
                if !NearAny(dots, x, y) {
                  dots := dots + [Dot(x, y, 5)];
                }
              }
            }
          }
        }
      }
      assert contours[..|contours|] == contours;
    }
    assert dots == AfterContours(circles, contours);
    ghost var held := dots;
    if |dots| < 3 {
      for i := 0 to |keypoints|
        invariant dots == AppendDistinct(held, BlobCandidates(keypoints[..i]))
      {
        var k := keypoints[i];
        assert keypoints[..i + 1][..i] == keypoints[..i];
        ghost var cands := BlobCandidates(keypoints[..i]);
        var x, y := Trunc(k.x), Trunc(k.y);
        assert BlobCandidates(keypoints[..i + 1]) == cands + [Dot(x, y, Trunc(k.size / 2.0))];
        assert (cands + [Dot(x, y, Trunc(k.size / 2.0))])[..|cands|] == cands;
        if !NearAny(dots, x, y) {
          dots := dots + [Dot(x, y, Trunc(k.size / 2.0))];
        }
      }
      assert keypoints[..|keypoints|] == keypoints;
    }
  }

  // ---------------------------------------------------------------------
  // What the cascade guarantees

  /** No image, or an empty one, gives no dots. */
  lemma NoImageNoDots(image: Option<Image>, circles: seq<Circle>, contours: seq<Contour>, keypoints: seq<Keypoint>)
    requires image.None? || image.value.Size() == 0
    ensures DetectDotsSpec(image, circles, contours, keypoints) == []
  {
  }

  /** A circle gives a dot exactly when its centre is darker than 100; the dot keeps the circle's centre and radius. */
  lemma {:induction false} HoughMembers(circles: seq<Circle>)
    ensures forall d :: d in HoughDots(circles) <==>
      exists i :: 0 <= i < |circles| && circles[i].centerIntensity < 100 && d == Dot(circles[i].x, circles[i].y, circles[i].radius)
    ensures |HoughDots(circles)| <= |circles|
    ensures |HoughDots(circles)| == |set i | 0 <= i < |circles| && circles[i].centerIntensity < 100|
  {
    if |circles| > 0 {
      var n := |circles| - 1;
      var init := circles[..n];
      HoughMembers(init);
      assert forall i :: 0 <= i < |init| ==> init[i] == circles[i];
      var A := set i | 0 <= i < n && init[i].centerIntensity < 100;
      var B := set i | 0 <= i < |circles| && circles[i].centerIntensity < 100;
      assert n !in A;
      if circles[n].centerIntensity < 100 {
        assert B == A + {n};
      } else {
        assert B == A;
      }
    }
  }

  /** The held dots are never removed or reordered: they stay a prefix. */
  lemma {:induction false} AppendKeepsPrefix(acc: seq<Dot>, cands: seq<Dot>)
    ensures var r := AppendDistinct(acc, cands);
      |acc| <= |r| <= |acc| + |cands| && r[..|acc|] == acc
  {
    if |cands| > 0 {
      AppendKeepsPrefix(acc, cands[..|cands| - 1]);
    }
  }

  /** Every appended dot is one of the candidates. */
  lemma {:induction false} AppendFromCandidates(acc: seq<Dot>, cands: seq<Dot>)
    ensures var r := AppendDistinct(acc, cands);
      forall j :: |acc| <= j < |r| ==> r[j] in cands
  {
    if |cands| > 0 {
      var init := cands[..|cands| - 1];
      AppendFromCandidates(acc, init);
      AppendKeepsPrefix(acc, init);
      var held := AppendDistinct(acc, init);
      forall j | |acc| <= j < |held|
        ensures held[j] in cands
      {
        assert held[j] in init;
      }
    }
  }

  /** An appended dot is not near any dot before it. */
  lemma {:induction false} AppendSeparated(acc: seq<Dot>, cands: seq<Dot>)
    ensures var r := AppendDistinct(acc, cands);
      forall i, j :: 0 <= i < j < |r| && |acc| <= j ==> !Near(r[i], r[j].x, r[j].y)
  {
    if |cands| > 0 {
      var init := cands[..|cands| - 1];
      AppendSeparated(acc, init);
      AppendKeepsPrefix(acc, init);
      var held := AppendDistinct(acc, init);
      var r := AppendDistinct(acc, cands);
      forall i, j | 0 <= i < j < |r| && |acc| <= j
        ensures !Near(r[i], r[j].x, r[j].y)
      {
        if j < |held| {
          assert r[i] == held[i] && r[j] == held[j];
        } else {
          assert r[i] == held[i];
        }
      }
    }
  }

  /** Every candidate ends up near some held dot: appended, or turned away by one. */
  lemma {:induction false} AppendCovers(acc: seq<Dot>, cands: seq<Dot>)
    ensures var r := AppendDistinct(acc, cands);
      forall k :: 0 <= k < |cands| ==> NearAny(r, cands[k].x, cands[k].y)
  {
    if |cands| > 0 {
      var init := cands[..|cands| - 1];
      AppendCovers(acc, init);
      AppendKeepsPrefix(acc, init);
      var held := AppendDistinct(acc, init);
      var r := AppendDistinct(acc, cands);
      assert r[..|held|] == held;
      forall k | 0 <= k < |cands|
        ensures NearAny(r, cands[k].x, cands[k].y)
      {
        if k < |init| {
          assert cands[k] == init[k];
          var m :| 0 <= m < |held| && Near(held[m], init[k].x, init[k].y);
          assert r[m] == held[m];
        } else if !NearAny(held, cands[k].x, cands[k].y) {
          assert Near(r[|held|], cands[k].x, cands[k].y);
        } else {
          var m :| 0 <= m < |held| && Near(held[m], cands[k].x, cands[k].y);
          assert r[m] == held[m];
        }
      }
    }
  }

  /**
   * The result is the Hough dots, then the contour dots, then the blob dots:
   * each stage's dots stay a prefix of the final list.
   */
  lemma StagesAppendOnly(image: Option<Image>, circles: seq<Circle>, contours: seq<Contour>, keypoints: seq<Keypoint>)
    requires image.Some? && image.value.Size() > 0
    ensures var hough := HoughDots(circles);
      var held := AfterContours(circles, contours);
      var r := DetectDotsSpec(image, circles, contours, keypoints);
      && |hough| <= |held| <= |r|
      && held[..|hough|] == hough && r[..|held|] == held
  {
    ContourStagePrefix(circles, contours);
    BlobStagePrefix(image, circles, contours, keypoints);
  }

  lemma ContourStagePrefix(circles: seq<Circle>, contours: seq<Contour>)
    ensures var hough := HoughDots(circles);
      var held := AfterContours(circles, contours);
      |hough| <= |held| && held[..|hough|] == hough
  {
    AppendKeepsPrefix(HoughDots(circles), ContourCandidates(contours));
  }

  lemma BlobStagePrefix(image: Option<Image>, circles: seq<Circle>, contours: seq<Contour>, keypoints: seq<Keypoint>)
    requires image.Some? && image.value.Size() > 0
    ensures var held := AfterContours(circles, contours);
      var r := DetectDotsSpec(image, circles, contours, keypoints);
      |held| <= |r| && r[..|held|] == held
  {
    AppendKeepsPrefix(AfterContours(circles, contours), BlobCandidates(keypoints));
  }

  /**
   * The later stages run only while dots are scarce: five Hough dots skip
   * the contours, and three dots held after the contours skip the blobs.
   */
  lemma StageGuards(image: Option<Image>, circles: seq<Circle>, contours: seq<Contour>, keypoints: seq<Keypoint>)
    requires image.Some? && image.value.Size() > 0
    ensures |HoughDots(circles)| >= 5 ==> DetectDotsSpec(image, circles, contours, keypoints) == HoughDots(circles)
    ensures |AfterContours(circles, contours)| >= 3 ==>
      DetectDotsSpec(image, circles, contours, keypoints) == AfterContours(circles, contours)
  {
  }

  /** Each contour candidate passed the shape filter and has radius 5. */
  lemma {:induction false} ContourCandidatesRound(contours: seq<Contour>)
    ensures forall d :: d in ContourCandidates(contours) ==>
      d.radius == 5 && exists i :: 0 <= i < |contours| && RoundContour(contours[i]) && d == ContourDot(contours[i])
  {
    if |contours| > 0 {
      var init := contours[..|contours| - 1];
      ContourCandidatesRound(init);
      assert forall i :: 0 <= i < |init| ==> init[i] == contours[i];
    }
  }

  /**
   * The contour stage adds only centroids of round contours, each with
   * radius 5, each not within 10 pixels on both axes of an earlier dot, and
   * leaves every round contour's centroid near some dot.
   */
  lemma ContourStage(circles: seq<Circle>, contours: seq<Contour>)
    requires |HoughDots(circles)| < 5
    ensures var hough := HoughDots(circles);
      var held := AfterContours(circles, contours);
      && (forall j :: |hough| <= j < |held| ==> held[j].radius == 5)
      && (forall j :: |hough| <= j < |held| ==>
            exists i :: 0 <= i < |contours| && RoundContour(contours[i]) && held[j] == ContourDot(contours[i]))
      && (forall i, j :: 0 <= i < j < |held| && |hough| <= j ==> !Near(held[i], held[j].x, held[j].y))
      && (forall i :: 0 <= i < |contours| && RoundContour(contours[i]) ==>
            NearAny(held, ContourDot(contours[i]).x, ContourDot(contours[i]).y))
  {
    var hough := HoughDots(circles);
    var cands := ContourCandidates(contours);
    AppendFromCandidates(hough, cands);
    ContourCandidatesRound(contours);
    AppendSeparated(hough, cands);
    AppendCovers(hough, cands);
    forall i | 0 <= i < |contours| && RoundContour(contours[i])
      ensures ContourDot(contours[i]) in cands
    {
      RoundContourIsCandidate(contours, i);
    }
  }

  lemma {:induction false} RoundContourIsCandidate(contours: seq<Contour>, i: nat)
    requires i < |contours| && RoundContour(contours[i])
    ensures ContourDot(contours[i]) in ContourCandidates(contours)
  {
    var init := contours[..|contours| - 1];
    if i < |init| {
      assert init[i] == contours[i];
      RoundContourIsCandidate(init, i);
    }
  }

  /** The blob candidates are the keypoints' centres and half-diameters, in order. */
  lemma {:induction false} BlobCandidatesExact(keypoints: seq<Keypoint>)
    ensures |BlobCandidates(keypoints)| == |keypoints|
    ensures forall i :: 0 <= i < |keypoints| ==> BlobCandidates(keypoints)[i] == BlobDot(keypoints[i])
  {
    if |keypoints| > 0 {
      BlobCandidatesExact(keypoints[..|keypoints| - 1]);
    }
  }

  /**
   * The blob stage adds only keypoint centres with radius int(size / 2),
   * each not within 10 pixels on both axes of an earlier dot, and leaves
   * every keypoint near some dot.
   */
  lemma BlobStage(image: Option<Image>, circles: seq<Circle>, contours: seq<Contour>, keypoints: seq<Keypoint>)
    requires image.Some? && image.value.Size() > 0
    requires |AfterContours(circles, contours)| < 3
    ensures var held := AfterContours(circles, contours);
      var r := DetectDotsSpec(image, circles, contours, keypoints);
      && (forall j :: |held| <= j < |r| ==> exists i :: 0 <= i < |keypoints| && r[j] == BlobDot(keypoints[i]))
      && (forall i, j :: 0 <= i < j < |r| && |held| <= j ==> !Near(r[i], r[j].x, r[j].y))
      && (forall i :: 0 <= i < |keypoints| ==> NearAny(r, Trunc(keypoints[i].x), Trunc(keypoints[i].y)))
  {
    var held := AfterContours(circles, contours);
    var cands := BlobCandidates(keypoints);
    BlobCandidatesExact(keypoints);
    AppendFromCandidates(held, cands);
    AppendSeparated(held, cands);
    AppendCovers(held, cands);
    var r := DetectDotsSpec(image, circles, contours, keypoints);
    forall j | |held| <= j < |r|
      ensures exists i :: 0 <= i < |keypoints| && r[j] == BlobDot(keypoints[i])
    {
      var i :| 0 <= i < |cands| && cands[i] == r[j];
    }
    forall i | 0 <= i < |keypoints|
      ensures NearAny(r, Trunc(keypoints[i].x), Trunc(keypoints[i].y))
    {
      assert cands[i] == BlobDot(keypoints[i]);
    }
  }
}
