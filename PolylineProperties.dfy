/**
 * Properties of the polyline decoder: what one number is, when decoding fails, that the points
 * are running sums of the deltas, that the numbers of a well-bounded string fit in 32-bit
 * arithmetic, and that decoding inverts the encoder of the Encoded Polyline Algorithm Format.
 */
module PolylineProperties {
  import opened Common
  import opened Polyline

  // ----- One number -----

  /** The value of the chunks s[i..j]: the k-th character of the number contributes its chunk
      `(code - 63) & 0x1f` at bit offset 5k. */
  function ChunkSum(s: string, i: nat, j: nat): nat
    requires i <= j <= |s|
    decreases j - i
  {
    if j == i then 0 else ChunkSum(s, i, j - 1) + Chunk(s[j - 1]) * Pow2(5 * (j - 1 - i))
  }

  lemma {:induction false} ChunkSumFront(s: string, i: nat, j: nat)
    requires i < j <= |s|
    ensures ChunkSum(s, i, j) == Chunk(s[i]) + 32 * ChunkSum(s, i + 1, j)
    decreases j - i
  {
    if j > i + 1 {
      ChunkSumFront(s, i, j - 1);
      var n := 5 * (j - 2 - i);
      Pow2Plus5(n);
      assert 5 * (j - 1 - i) == n + 5;
      ScaleByShift(Chunk(s[j - 1]), Pow2(n), Pow2(n + 5));
    }
  }

  /** One more chunk at the next bit offset weighs 32 times as much. */
  lemma ScaleByShift(c: int, p: int, p5: int)
    requires p5 == 32 * p
    ensures c * p5 == 32 * (c * p)
  {
  }

  /** A number read from index i ends at the first character without the continuation flag,
      and its value is the sum of its chunks at bit offsets 0, 5, 10, ... */
  lemma {:induction false} ReadRawIsChunkSum(s: string, i: nat, r: nat, j: nat)
    ensures ReadRaw(s, i) == Some((r, j)) <==>
      (i < j <= |s| && (forall k :: i <= k < j - 1 ==> Continues(s[k]))
       && !Continues(s[j - 1]) && r == ChunkSum(s, i, j))
    decreases |s| - i
  {
    if i < j <= |s| {
      ChunkSumFront(s, i, j);
      if j > i + 1 && Continues(s[i]) {
        ReadRawIsChunkSum(s, i + 1, ChunkSum(s, i + 1, j), j);
        match ReadRaw(s, i + 1)
        case None =>
        case Some((rest, j')) =>
          if j' == j {
            ReadRawIsChunkSum(s, i + 1, rest, j);
          }
      }
    }
  }

  /** A number is cut short exactly when every character from i to the end continues. */
  lemma {:induction false} ReadRawNone(s: string, i: nat)
    ensures ReadRaw(s, i) == None <==> forall k :: i <= k < |s| ==> Continues(s[k])
    decreases |s| - i
  {
    if i < |s| {
      ReadRawNone(s, i + 1);
    }
  }

  lemma {:induction false} ChunkSumBound(s: string, i: nat, j: nat)
    requires i <= j <= |s|
    ensures ChunkSum(s, i, j) < Pow2(5 * (j - i))
    decreases j - i
  {
    if j > i {
      ChunkSumBound(s, i, j - 1);
      var n := 5 * (j - 1 - i);
      Pow2Plus5(n);
      assert 5 * (j - i) == n + 5;
      TopChunkBound(ChunkSum(s, i, j - 1), Chunk(s[j - 1]), Pow2(n));
    }
  }

  /**
   * On a string whose numbers have at most six chunks, every raw number is below 2^30 and every
   * delta lies in [-2^29, 2^29): the `shr 1` and `inv()` of the zigzag decoding only ever see a
   * non-negative value below 2^30, and every sum the accumulators add is of deltas in that range.
   */
  lemma {:induction false} ChunksFitBounds(s: string, i: nat)
    requires i <= |s| && ChunksFit(s, i) && Numbers(s, i).Some?
    ensures forall k :: 0 <= k < |Numbers(s, i).value| ==> Numbers(s, i).value[k] < 0x4000_0000
    ensures forall k :: 0 <= k < |Numbers(s, i).value| ==>
      -0x2000_0000 <= Deltas(Numbers(s, i).value)[k] < 0x2000_0000
    decreases |s| - i
  {
    if i < |s| {
      var (raw, j) := ReadRaw(s, i).value;
      ReadRawIsChunkSum(s, i, raw, j);
      ChunkSumBound(s, i, j);
      Pow2Monotone(5 * (j - i), 30);
      Pow2Of30();
      ChunksFitBounds(s, j);
    }
  }

  // ----- Malformed input -----

  /** A string whose last character still has the continuation flag set makes `decodePoly`
      read past the end. */
  lemma {:induction false} TrailingContinuationFails(s: string)
    requires s != [] && Continues(s[|s| - 1])
    ensures Decode(s) == IndexOutOfBounds
  {
    NumbersCutShort(s, 0);
  }

  lemma {:induction false} NumbersCutShort(s: string, i: nat)
    requires i < |s| && Continues(s[|s| - 1])
    ensures Numbers(s, i) == None
    decreases |s| - i
  {
    match ReadRaw(s, i)
    case None =>
    case Some((raw, j)) =>
      ReadRawIsChunkSum(s, i, raw, j);
      NumbersCutShort(s, j);
  }

  /** A lone number ('?' is the number 0) has no longitude: the second inner loop reads past
      the end. A pair of them is one point at the origin. */
  lemma OddCountExamples()
    ensures Decode("?") == IndexOutOfBounds
    ensures Decode("??") == Points([LatLng(0, 0)])
  {
    var one, two := "?", "??";
    assert one[0] == '?' && two[0] == '?' && two[1] == '?';
    assert ReadRaw(one, 0) == Some((0, 1));
    assert Numbers(one, 1) == Some([]);
    assert Numbers(one, 0) == Some([0] + []);
    assert [0] + [] == [0];
    assert ReadRaw(two, 1) == Some((0, 2));
    assert Numbers(two, 2) == Some([]);
    assert Numbers(two, 1) == Some([0] + []);
    assert ReadRaw(two, 0) == Some((0, 1));
    assert Numbers(two, 0) == Some([0] + [0]);
    assert [0] + [0] == [0, 0];
    assert Deltas([0, 0]) == [0, 0];
  }

  // ----- Running sums -----

  function Sum(xs: seq<int>): int
  {
    if xs == [] then 0 else xs[0] + Sum(xs[1..])
  }

  /** The latitude deltas: the numbers at even positions. */
  function LatDeltas(ds: seq<int>): seq<int>
  {
    seq(|ds| / 2, k requires 0 <= k < |ds| / 2 => ds[2 * k])
  }

  /** The longitude deltas: the numbers at odd positions. */
  function LngDeltas(ds: seq<int>): seq<int>
  {
    seq(|ds| / 2, k requires 0 <= k < |ds| / 2 => ds[2 * k + 1])
  }

  /** Kotlin's `lat += dlat` wraps, and wrapping once per step is the same as wrapping the sum. */
  lemma Int32AddWrapped(a: int, b: int)
    ensures Int32(Int32(a) + b) == Int32(a + b)
  {
    var ka := Int32Quotient(a);
    var kab := Int32Quotient(a + b);
    Int32Unique(Int32(a) + b, Int32(a + b), kab - ka);
  }


  /** The sum of the latitude deltas of points 0 to i, read off the interleaved deltas. */
  function LatRunning(ds: seq<int>, i: nat): int
    requires 2 * i + 1 < |ds|
    decreases i
  {
    if i == 0 then ds[0] else ds[0] + LatRunning(ds[2..], i - 1)
  }

  /** The sum of the longitude deltas of points 0 to i. */
  function LngRunning(ds: seq<int>, i: nat): int
    requires 2 * i + 1 < |ds|
    decreases i
  {
    if i == 0 then ds[1] else ds[1] + LngRunning(ds[2..], i - 1)
  }

  /** The i-th point is the start plus the sum of the first i + 1 latitude deltas (and the
      same for longitude), wrapped to 32 bits. */
  lemma AccumulateIsPrefixSums(ds: seq<int>, lat: int, lng: int, i: nat)
    requires |ds| % 2 == 0 && i < |ds| / 2
    ensures Accumulate(ds, lat, lng)[i]
      == LatLng(Int32(lat + Sum(LatDeltas(ds)[..i + 1])), Int32(lng + Sum(LngDeltas(ds)[..i + 1])))
  {
    AccumulateIsRunning(ds, lat, lng, i);
    RunningIsPrefixSum(ds, i);
  }

  lemma {:induction false} AccumulateIsRunning(ds: seq<int>, lat: int, lng: int, i: nat)
    requires |ds| % 2 == 0 && i < |ds| / 2
    ensures Accumulate(ds, lat, lng)[i]
      == LatLng(Int32(lat + LatRunning(ds, i)), Int32(lng + LngRunning(ds, i)))
    decreases |ds|
  {
    var p := LatLng(Int32(lat + ds[0]), Int32(lng + ds[1]));
    if i > 0 {
      var j := i - 1;
      AccumulateIsRunning(ds[2..], p.lat, p.lng, j);
      var q := AccumulateAt(ds, lat, lng, i);
      PointFromRest(q, lat, lng, ds[0], ds[1], p,
        LatRunning(ds[2..], j), LngRunning(ds[2..], j), LatRunning(ds, i), LngRunning(ds, i));
    } else {
      assert i == 0;
      var latTotal, lngTotal := LatRunning(ds, i), LngRunning(ds, i);
      assert latTotal == ds[0] && lngTotal == ds[1];
      assert Accumulate(ds, lat, lng)[i] == p;
      assert p == LatLng(Int32(lat + latTotal), Int32(lng + lngTotal));
    }
  }

  /** The running sums are the sums of the first i + 1 deltas of each coordinate. */
  lemma {:induction false} RunningIsPrefixSum(ds: seq<int>, i: nat)
    requires |ds| % 2 == 0 && i < |ds| / 2
    ensures LatRunning(ds, i) == Sum(LatDeltas(ds)[..i + 1])
    ensures LngRunning(ds, i) == Sum(LngDeltas(ds)[..i + 1])
    decreases i
  {
    PrefixSumsSplit(ds, i);
    if i > 0 {
      RunningIsPrefixSum(ds[2..], i - 1);
      assert i - 1 + 1 == i;
    }
  }

  /** A later point of a polyline is a point of the polyline that starts at its first point. */
  lemma AccumulateAt(ds: seq<int>, lat: int, lng: int, i: nat) returns (q: LatLng)
    requires |ds| % 2 == 0 && 0 < i < |ds| / 2
    ensures q == Accumulate(ds, lat, lng)[i]
    ensures q == Accumulate(ds[2..], Int32(lat + ds[0]), Int32(lng + ds[1]))[i - 1]
  {
    q := Accumulate(ds, lat, lng)[i];
  }

  /** A point reached from the wrapped first point is the start plus the whole sum, wrapped. */
  lemma PointFromRest(q: LatLng, lat: int, lng: int, dlat: int, dlng: int, p: LatLng,
                      latSum: int, lngSum: int, latTotal: int, lngTotal: int)
    requires p == LatLng(Int32(lat + dlat), Int32(lng + dlng))
    requires q == LatLng(Int32(p.lat + latSum), Int32(p.lng + lngSum))
    requires latTotal == dlat + latSum && lngTotal == dlng + lngSum
    ensures q == LatLng(Int32(lat + latTotal), Int32(lng + lngTotal))
  {
    WrappedStep(lat + dlat, p.lat, latSum, lat + latTotal);
    WrappedStep(lng + dlng, p.lng, lngSum, lng + lngTotal);
  }

  /** Adding a partial sum onto an already wrapped value. */
  lemma WrappedStep(a: int, wrapped: int, b: int, total: int)
    requires wrapped == Int32(a) && total == a + b
    ensures Int32(wrapped + b) == Int32(total)
  {
    Int32AddWrapped(a, b);
  }

  /** The first pair of deltas followed by the prefix sums of the rest. */
  lemma PrefixSumsSplit(ds: seq<int>, i: nat)
    requires |ds| % 2 == 0 && i < |ds| / 2
    ensures Sum(LatDeltas(ds)[..i + 1]) == ds[0] + Sum(LatDeltas(ds[2..])[..i])
    ensures Sum(LngDeltas(ds)[..i + 1]) == ds[1] + Sum(LngDeltas(ds[2..])[..i])
  {
    var rest := ds[2..];
    assert LatDeltas(ds)[..i + 1] == [ds[0]] + LatDeltas(rest)[..i];
    assert LngDeltas(ds)[..i + 1] == [ds[1]] + LngDeltas(rest)[..i];
    assert ([ds[0]] + LatDeltas(rest)[..i])[1..] == LatDeltas(rest)[..i];
    assert ([ds[1]] + LngDeltas(rest)[..i])[1..] == LngDeltas(rest)[..i];
  }


  /** The decoded points are the running sums of the decoded deltas: the i-th latitude is the
      sum of the first i + 1 latitude deltas, the i-th longitude likewise. */
  lemma DecodedPointsArePrefixSums(s: string, i: nat)
    requires Decode(s).Points? && i < |Decode(s).points|
    ensures
      var ds := Deltas(Numbers(s, 0).value);
      Decode(s).points[i]
        == LatLng(Int32(Sum(LatDeltas(ds)[..i + 1])), Int32(Sum(LngDeltas(ds)[..i + 1])))
  {
    AccumulateIsPrefixSums(Deltas(Numbers(s, 0).value), 0, 0, i);
  }

  // ----- The encoder and the round trip -----

  /** The characters of one raw number: its 5-bit chunks from the least significant, each but
      the last with the continuation flag 0x20, each offset by 63. */
  function EncodeRaw(r: nat): (e: string)
    ensures |e| >= 1
    decreases r
  {
    if r < 32 then [(r + 63) as char]
    else [(r % 32 + 0x20 + 63) as char] + EncodeRaw(r / 32)
  }

  function EncodeRaws(raws: seq<nat>): string
  {
    if raws == [] then [] else EncodeRaw(raws[0]) + EncodeRaws(raws[1..])
  }

  /** The deltas of a polyline, latitude then longitude, each point against the previous one
      and the first against (lat, lng). */
  function Differences(pts: seq<LatLng>, lat: int, lng: int): (ds: seq<int>)
    ensures |ds| == 2 * |pts|
  {
    if pts == [] then []
    else [pts[0].lat - lat, pts[0].lng - lng] + Differences(pts[1..], pts[0].lat, pts[0].lng)
  }

  function Zigzags(ds: seq<int>): seq<nat>
  {
    seq(|ds|, k requires 0 <= k < |ds| => Zigzag(ds[k]))
  }

  /** The Encoded Polyline Algorithm Format encoder, on points in units of 1e-5 degrees. */
  function Encode(pts: seq<LatLng>): string
  {
    EncodeRaws(Zigzags(Differences(pts, 0, 0)))
  }

  /** Every coordinate fits in a Kotlin `Int`. */
  ghost predicate InInt32(pts: seq<LatLng>)
  {
    forall k :: 0 <= k < |pts| ==>
      INT_MIN <= pts[k].lat <= INT_MAX && INT_MIN <= pts[k].lng <= INT_MAX
  }

  /** Every delta of the polyline (from the origin for the first point) lies in [-2^29, 2^29),
      so that it encodes in at most six chunks. */
  ghost predicate DeltasFit(pts: seq<LatLng>)
  {
    var ds := Differences(pts, 0, 0);
    forall k :: 0 <= k < |ds| ==> -0x2000_0000 <= ds[k] < 0x2000_0000
  }

  lemma ZigzagRoundTrip(v: int)
    ensures Unzigzag(Zigzag(v)) == v
  {
  }

  lemma {:induction false} ReadRawOfEncodeRaw(s: string, i: nat, r: nat)
    requires i + |EncodeRaw(r)| <= |s| && s[i..i + |EncodeRaw(r)|] == EncodeRaw(r)
    ensures ReadRaw(s, i) == Some((r, i + |EncodeRaw(r)|))
    decreases r
  {
    var e := EncodeRaw(r);
    assert s[i] == e[0];
    if r >= 32 {
      assert s[i + 1..i + |e|] == EncodeRaw(r / 32);
      ReadRawOfEncodeRaw(s, i + 1, r / 32);
    }
  }

  lemma {:induction false} EncodeRawLength(r: nat, k: nat)
    requires 1 <= k && r < Pow2(5 * k)
    ensures |EncodeRaw(r)| <= k
    decreases k
  {
    if r >= 32 {
      Pow2Plus5(5 * (k - 1));
      assert 5 * k == 5 * (k - 1) + 5;
      EncodeRawLength(r / 32, k - 1);
    }
  }

  lemma {:induction false} NumbersOfEncodeRaws(s: string, i: nat, raws: seq<nat>)
    requires i <= |s| && s[i..] == EncodeRaws(raws)
    ensures Numbers(s, i) == Some(raws)
    decreases raws
  {
    if raws != [] {
      var j := EncodeRawsFront(s, i, raws);
      NumbersOfEncodeRaws(s, j, raws[1..]);
      assert [raws[0]] + raws[1..] == raws;
    }
  }

  /** The first number of an encoded sequence is read back, and the rest follows it. */
  lemma EncodeRawsFront(s: string, i: nat, raws: seq<nat>) returns (j: nat)
    requires i <= |s| && s[i..] == EncodeRaws(raws) && raws != []
    ensures j == i + |EncodeRaw(raws[0])| <= |s|
    ensures ReadRaw(s, i) == Some((raws[0], j))
    ensures s[j..] == EncodeRaws(raws[1..])
  {
    var e := EncodeRaw(raws[0]);
    j := i + |e|;
    assert s[i..][..|e|] == e;
    assert s[i..j] == e;
    ReadRawOfEncodeRaw(s, i, raws[0]);
    assert s[j..] == s[i..][|e|..];
  }

  /** Raw numbers below 2^30 encode in at most six chunks each. */
  lemma {:induction false} EncodeRawsFit(s: string, i: nat, raws: seq<nat>)
    requires i <= |s| && s[i..] == EncodeRaws(raws)
    requires forall k :: 0 <= k < |raws| ==> raws[k] < 0x4000_0000
    ensures ChunksFit(s, i)
    decreases raws
  {
    if raws != [] {
      var j := EncodeRawsFront(s, i, raws);
      assert forall k :: 0 <= k < |raws[1..]| ==> raws[1..][k] == raws[k + 1];
      EncodeRawsFit(s, j, raws[1..]);
      Pow2Of30();
      EncodeRawLength(raws[0], 6);
    }
  }

  lemma {:induction false} AccumulateDifferences(pts: seq<LatLng>, lat: int, lng: int)
    requires InInt32(pts)
    ensures Accumulate(Differences(pts, lat, lng), lat, lng) == pts
    decreases pts
  {
    if pts != [] {
      var ds := Differences(pts, lat, lng);
      assert ds[2..] == Differences(pts[1..], pts[0].lat, pts[0].lng);
      assert InInt32(pts[1..]) by {
        assert forall k :: 0 <= k < |pts[1..]| ==> pts[1..][k] == pts[k + 1];
      }
      AccumulateDifferences(pts[1..], pts[0].lat, pts[0].lng);
    }
  }

  /**
   * Decoding the encoding of a polyline, in unbounded arithmetic, gives the polyline back.
   * The accumulators of `decodePoly` round-trip at least when every delta lies in
   * [-2^29, 2^29): then the encoding meets `DecodePoly`'s precondition.
   */
  lemma DecodeEncode(pts: seq<LatLng>)
    requires InInt32(pts)
    ensures Decode(Encode(pts)) == Points(pts)
    ensures DeltasFit(pts) ==> ChunksFit(Encode(pts), 0)
  {
    var ds := Differences(pts, 0, 0);
    var s := Encode(pts);
    assert s[0..] == s;
    NumbersOfEncodeRaws(s, 0, Zigzags(ds));
    assert Deltas(Zigzags(ds)) == ds by {
      forall k | 0 <= k < |ds| {
        ZigzagRoundTrip(ds[k]);
      }
    }
    AccumulateDifferences(pts, 0, 0);
    if DeltasFit(pts) {
      forall k | 0 <= k < |ds|
        ensures Zigzags(ds)[k] < 0x4000_0000
      {
      }
      EncodeRawsFit(s, 0, Zigzags(ds));
    }
  }

  /** The worked example of the Encoded Polyline Algorithm Format: the points (38.5, -120.2),
      (40.7, -120.95) and (43.252, -126.453). */
  const EXAMPLE_POINTS: seq<LatLng> :=
    [LatLng(3850000, -12020000), LatLng(4070000, -12095000), LatLng(4325200, -12645300)]
  const EXAMPLE_ENCODED: string := "_p~iF~ps|U_ulLnnqC_mqNvxq`@"

  lemma ExampleZigzags()
    ensures Zigzags(Differences(EXAMPLE_POINTS, 0, 0))
      == [7700000, 24039999, 440000, 149999, 510400, 1100599]
  {
    assert Differences(EXAMPLE_POINTS, 0, 0) == [3850000, -12020000, 220000, -75000, 255200, -550300];
  }

  function Flatten(parts: seq<string>): string
  {
    if parts == [] then [] else parts[0] + Flatten(parts[1..])
  }

  /** The encoding of a list of numbers is the concatenation of the encodings of each. */
  lemma {:induction false} EncodeRawsOfParts(raws: seq<nat>, parts: seq<string>)
    requires |raws| == |parts|
    requires forall k :: 0 <= k < |raws| ==> EncodeRaw(raws[k]) == parts[k]
    ensures EncodeRaws(raws) == Flatten(parts)
    decreases raws
  {
    if raws != [] {
      EncodeRawsOfParts(raws[1..], parts[1..]);
    }
  }

  lemma ExampleFirstNumber()
    ensures EncodeRaw(7700000) == "_p~iF"
  {
  }

  lemma ExampleSecondNumber()
    ensures EncodeRaw(24039999) == "~ps|U"
  {
  }

  lemma ExampleThirdNumber()
    ensures EncodeRaw(440000) == "_ulL"
  {
  }

  lemma ExampleFourthNumber()
    ensures EncodeRaw(149999) == "nnqC"
  {
  }

  lemma ExampleFifthNumber()
    ensures EncodeRaw(510400) == "_mqN"
  {
  }

  lemma ExampleSixthNumber()
    ensures EncodeRaw(1100599) == "vxq`@"
  {
  }

  /** Six parts flatten to their concatenation. */
  lemma FlattenSix(a: string, b: string, c: string, d: string, e: string, f: string)
    ensures Flatten([a, b, c, d, e, f]) == a + b + c + d + e + f
  {
    var parts := [a, b, c, d, e, f];
    assert parts[5..][1..] == [];
    assert parts[4..][1..] == parts[5..];
    assert parts[3..][1..] == parts[4..];
    assert parts[2..][1..] == parts[3..];
    assert parts[1..][1..] == parts[2..];
    assert Flatten(parts[5..]) == f + [];
    assert Flatten(parts[4..]) == e + f;
    assert Flatten(parts[3..]) == d + (e + f);
    assert Flatten(parts[2..]) == c + (d + (e + f));
    assert Flatten(parts[1..]) == b + (c + (d + (e + f)));
    assert Flatten(parts) == a + (b + (c + (d + (e + f))));
  }

  lemma ExampleFlatten()
    ensures Flatten(["_p~iF", "~ps|U", "_ulL", "nnqC", "_mqN", "vxq`@"]) == EXAMPLE_ENCODED
  {
    FlattenSix("_p~iF", "~ps|U", "_ulL", "nnqC", "_mqN", "vxq`@");
  }

  /** The encoder gives the example's published encoding. */
  lemma ExampleEncoding()
    ensures Encode(EXAMPLE_POINTS) == EXAMPLE_ENCODED
  {
    ExampleZigzags();
    ExampleFirstNumber();
    ExampleSecondNumber();
    ExampleThirdNumber();
    ExampleFourthNumber();
    ExampleFifthNumber();
    ExampleSixthNumber();
    EncodeRawsOfParts([7700000, 24039999, 440000, 149999, 510400, 1100599],
                      ["_p~iF", "~ps|U", "_ulL", "nnqC", "_mqN", "vxq`@"]);
    ExampleFlatten();
  }

  /** `decodePoly` accepts the example's encoding, and its accumulators give the example's
      points back. */
  lemma StandardExample()
    ensures ChunksFit(EXAMPLE_ENCODED, 0)
    ensures Decode(EXAMPLE_ENCODED) == Points(EXAMPLE_POINTS)
  {
    ExampleEncoding();
    assert InInt32(EXAMPLE_POINTS);
    assert DeltasFit(EXAMPLE_POINTS) by {
      assert Differences(EXAMPLE_POINTS, 0, 0) == [3850000, -12020000, 220000, -75000, 255200, -550300];
    }
    DecodeEncode(EXAMPLE_POINTS);
  }
}
