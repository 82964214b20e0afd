/** The discrete part of the Fresnel hologram example: the test object, a cube
    surface sampled as a point cloud. The sample values come from
    `np.linspace(-size, size, n_points)`, a floating-point library call that is
    a parameter here; the spherical-wave accumulation over the points is
    floating-point work and is not modelled. */
module FresnelHologram {

  /** One row `[x, y, z]` of the (M, 3) point array. */
  datatype Point = Point(x: real, y: real, z: real)

  /** Half the side of the cube (`size` in generate_point_cloud). */
  const CubeHalfSide: real := 0.5

  /** Samples per axis (`n_points` in generate_point_cloud). */
  const SamplesPerAxis: nat := 20

  /** The six points appended for one sample pair (x, y), in the order of the
      source: front, back, bottom, top, left and right face. */
  function FacePoints(x: real, y: real, s: real): seq<Point> {
    [Point(x, y, -s), Point(x, y, s), Point(x, -s, y), Point(x, s, y), Point(-s, x, y), Point(s, x, y)]
  }

  /** The points the inner loop appends for one outer sample x. */
  function RowPoints(x: real, ys: seq<real>, s: real): (row: seq<Point>)
    ensures |row| == 6 * |ys|
  {
    if ys == [] then [] else RowPoints(x, ys[..|ys| - 1], s) + FacePoints(x, ys[|ys| - 1], s)
  }

  /** The points both loops append, outer samples xs and inner samples ys. */
  function CloudPoints(xs: seq<real>, ys: seq<real>, s: real): (cloud: seq<Point>)
    ensures |cloud| == 6 * |xs| * |ys|
  {
    if xs == [] then []
    else
      var prefix := CloudPoints(xs[..|xs| - 1], ys, s);
      assert 6 * (|xs| - 1) * |ys| + 6 * |ys| == 6 * |xs| * |ys|;
      prefix + RowPoints(xs[|xs| - 1], ys, s)
  }

  /** The point lies on one of the six face planes of the cube of half side s. */
  predicate OnCubeFace(p: Point, s: real) {
    p.x == -s || p.x == s || p.y == -s || p.y == s || p.z == -s || p.z == s
  }

  /** Every coordinate of the point lies in [-s, s]. */
  predicate InCube(p: Point, s: real) {
    -s <= p.x <= s && -s <= p.y <= s && -s <= p.z <= s
  }

  /** Every sample lies in [-s, s]. */
  predicate SamplesInRange(v: seq<real>, s: real) {
    forall k :: 0 <= k < |v| ==> -s <= v[k] <= s
  }

  /** generate_point_cloud, with `samples` standing for the array that
      `np.linspace(-size, size, n_points)` returns to both loops: 20 values
      from -0.5 to 0.5. */
  method GeneratePointCloud(samples: seq<real>) returns (points: seq<Point>)
    requires |samples| == SamplesPerAxis
    requires samples[0] == -CubeHalfSide && samples[SamplesPerAxis - 1] == CubeHalfSide
    ensures points == CloudPoints(samples, samples, CubeHalfSide)
    ensures |points| == 2400
    ensures points[0] == points[2] == points[4] == Point(-CubeHalfSide, -CubeHalfSide, -CubeHalfSide)
  {
    var size := CubeHalfSide;
    points := [];
    var i := 0;
    while i < |samples|
      invariant 0 <= i <= |samples|
      invariant points == CloudPoints(samples[..i], samples, size)
    {
      var x := samples[i];
      var j := 0;
      while j < |samples|
        invariant 0 <= j <= |samples|
        invariant points == CloudPoints(samples[..i], samples, size) + RowPoints(x, samples[..j], size)
      {
        var y := samples[j];
        points := points + [Point(x, y, -size)];  // front face
        points := points + [Point(x, y, size)];   // back face
        points := points + [Point(x, -size, y)];  // bottom face
        points := points + [Point(x, size, y)];   // top face
        points := points + [Point(-size, x, y)];  // left face
        points := points + [Point(size, x, y)];   // right face
        assert samples[..j + 1][..j] == samples[..j];
        j := j + 1;
      }
      assert samples[..j] == samples;
      assert samples[..i + 1][..i] == samples[..i];
      i := i + 1;
    }
    assert samples[..i] == samples;
    CloudRepeatsCorner(samples, samples, size);
  }

  lemma {:induction false} RowPointsAt(x: real, ys: seq<real>, s: real, j: nat)
    requires j < |ys|
    ensures RowPoints(x, ys, s)[6 * j .. 6 * j + 6] == FacePoints(x, ys[j], s)
  {
    var last := |ys| - 1;
    var before, face := RowPoints(x, ys[..last], s), FacePoints(x, ys[last], s);
    assert RowPoints(x, ys, s) == before + face;
    if j < last {
      RowPointsAt(x, ys[..last], s, j);
      assert ys[..last][j] == ys[j];
      assert (before + face)[6 * j .. 6 * j + 6] == before[6 * j .. 6 * j + 6];
    } else {
      assert (before + face)[|before| .. |before| + 6] == face;
    }
  }

  /** The points appended for the first k outer samples are a prefix of the
      whole cloud. */
  lemma {:induction false} CloudPrefix(xs: seq<real>, ys: seq<real>, s: real, k: nat)
    requires k <= |xs|
    ensures CloudPoints(xs[..k], ys, s) <= CloudPoints(xs, ys, s)
  {
    if k < |xs| {
      var last := |xs| - 1;
      CloudPrefix(xs[..last], ys, s, k);
      assert xs[..last][..k] == xs[..k];
    } else {
      assert xs[..k] == xs;
    }
  }

  /** Block arithmetic: after i complete rows of n inner samples, the block of
      inner sample j starts at 6 * (i * n + j). */
  lemma BlockStart(rowStart: nat, i: nat, j: nat, n: nat)
    requires rowStart == 6 * i * n
    ensures 6 * (i * n + j) == rowStart + 6 * j
  {
  }

  lemma {:induction false} CloudBlockAt(xs: seq<real>, ys: seq<real>, s: real, i: nat, j: nat)
    requires i < |xs| && j < |ys|
    ensures 6 * (i * |ys| + j) + 6 <= |CloudPoints(xs, ys, s)|
    ensures CloudPoints(xs, ys, s)[6 * (i * |ys| + j) .. 6 * (i * |ys| + j) + 6] == FacePoints(xs[i], ys[j], s)
  {
    var before := CloudPoints(xs[..i], ys, s);
    var row := RowPoints(xs[i], ys, s);
    assert xs[..i + 1][..i] == xs[..i];
    assert CloudPoints(xs[..i + 1], ys, s) == before + row;
    CloudPrefix(xs, ys, s, i + 1);
    RowPointsAt(xs[i], ys, s, j);
    BlockStart(|before|, i, j, |ys|);
    var b := |before| + 6 * j;
    assert (before + row)[b .. b + 6] == row[6 * j .. 6 * j + 6];
  }

  /** Order: for outer sample i and inner sample j the six points at indices
      `6 * (i * |ys| + j) + 0 .. 5` are the front, back, bottom, top, left and
      right face points of (xs[i], ys[j]). */
  lemma CloudPointsAt(xs: seq<real>, ys: seq<real>, s: real, i: nat, j: nat)
    requires i < |xs| && j < |ys|
    ensures var cloud, b, x, y := CloudPoints(xs, ys, s), 6 * (i * |ys| + j), xs[i], ys[j];
            b + 6 <= |cloud|
            && cloud[b] == Point(x, y, -s) && cloud[b + 1] == Point(x, y, s)
            && cloud[b + 2] == Point(x, -s, y) && cloud[b + 3] == Point(x, s, y)
            && cloud[b + 4] == Point(-s, x, y) && cloud[b + 5] == Point(s, x, y)
  {
    CloudBlockAt(xs, ys, s, i, j);
    var b := 6 * (i * |ys| + j);
    var block := CloudPoints(xs, ys, s)[b .. b + 6];
    assert block[0] == CloudPoints(xs, ys, s)[b] && block[5] == CloudPoints(xs, ys, s)[b + 5];
  }

  lemma {:induction false} RowOnCubeFaces(x: real, ys: seq<real>, s: real)
    ensures forall k :: 0 <= k < |RowPoints(x, ys, s)| ==> OnCubeFace(RowPoints(x, ys, s)[k], s)
  {
    if ys != [] {
      RowOnCubeFaces(x, ys[..|ys| - 1], s);
    }
  }

  /** Every generated point has a coordinate equal to -s or s: it lies on a
      face plane of the cube. */
  lemma {:induction false} CloudOnCubeFaces(xs: seq<real>, ys: seq<real>, s: real)
    ensures forall k :: 0 <= k < |CloudPoints(xs, ys, s)| ==> OnCubeFace(CloudPoints(xs, ys, s)[k], s)
  {
    if xs != [] {
      CloudOnCubeFaces(xs[..|xs| - 1], ys, s);
      RowOnCubeFaces(xs[|xs| - 1], ys, s);
    }
  }

  lemma {:induction false} RowInCube(x: real, ys: seq<real>, s: real)
    requires -s <= x <= s && SamplesInRange(ys, s)
    ensures forall k :: 0 <= k < |RowPoints(x, ys, s)| ==> InCube(RowPoints(x, ys, s)[k], s)
  {
    if ys != [] {
      RowInCube(x, ys[..|ys| - 1], s);
    }
  }

  /** When every sample lies in [-s, s], so does every coordinate of every point. */
  lemma {:induction false} CloudInCube(xs: seq<real>, ys: seq<real>, s: real)
    requires SamplesInRange(xs, s) && SamplesInRange(ys, s)
    ensures forall k :: 0 <= k < |CloudPoints(xs, ys, s)| ==> InCube(CloudPoints(xs, ys, s)[k], s)
  {
    if xs != [] {
      CloudInCube(xs[..|xs| - 1], ys, s);
      RowInCube(xs[|xs| - 1], ys, s);
    }
  }

  /** The list is not deduplicated: when both sample sequences start at -s, the
      corner (-s, -s, -s) is appended three times for i = j = 0, as a front,
      a bottom and a left face point. */
  lemma CloudRepeatsCorner(xs: seq<real>, ys: seq<real>, s: real)
    requires |xs| > 0 && |ys| > 0 && xs[0] == -s && ys[0] == -s
    ensures |CloudPoints(xs, ys, s)| >= 6
    ensures CloudPoints(xs, ys, s)[0] == CloudPoints(xs, ys, s)[2] == CloudPoints(xs, ys, s)[4] == Point(-s, -s, -s)
  {
    CloudPointsAt(xs, ys, s, 0, 0);
  }
}
