/**
 * The decoder of Google's Encoded Polyline Algorithm Format used by the GTA map activity
 * (`decodePoly`). A polyline is a string of characters; from each character's code minus 63
 * the decoder takes the low five bits as a chunk, and the number goes on while that difference
 * is at least 0x20 (for the characters '_' to '~' this is bit 0x20; any character above '~'
 * also continues the number). The chunks of one number are little-endian; the number is
 * zigzag-encoded (an odd raw value is negative); numbers come in pairs (latitude delta,
 * longitude delta) that are added onto running accumulators.
 *
 * Coordinates are the accumulators `lat` and `lng`, in integer units of 1e-5 degrees: the final
 * division by 1E5 is floating point, and the clamping and wrapping of the Maps `LatLng`
 * constructor the source passes them to are not part of the model.
 */
module Polyline {
  import opened Common

  /** A decoded point, latitude and longitude in units of 1e-5 degrees. */
  datatype LatLng = LatLng(lat: int, lng: int)

  /** The outcome of `decodePoly`: the points, or the StringIndexOutOfBoundsException it
      throws when it reads past the end of the string. */
  datatype Decoded = Points(points: seq<LatLng>) | IndexOutOfBounds

  const INT_MIN: int := -0x8000_0000
  const INT_MAX: int := 0x7fff_ffff
  const INT_RANGE: int := 0x1_0000_0000

  /** Kotlin `Int` arithmetic: the result of an addition is wrapped to 32-bit two's complement,
      that is, moved by whole multiples of 2^32 into [-2^31, 2^31). */
  function Int32(x: int): (r: int)
    ensures INT_MIN <= r <= INT_MAX
    decreases if x < INT_MIN then INT_MIN - x else if x > INT_MAX then x - INT_MAX else 0
  {
    if x < INT_MIN then Int32(x + INT_RANGE)
    else if x > INT_MAX then Int32(x - INT_RANGE)
    else x
  }

  /** Wrapping moves a value by a whole number of 2^32. */
  lemma {:induction false} Int32Quotient(x: int) returns (k: int)
    ensures x == Int32(x) + k * INT_RANGE
    decreases if x < INT_MIN then INT_MIN - x else if x > INT_MAX then x - INT_MAX else 0
  {
    if x < INT_MIN {
      var k' := Int32Quotient(x + INT_RANGE);
      k := k' - 1;
    } else if x > INT_MAX {
      var k' := Int32Quotient(x - INT_RANGE);
      k := k' + 1;
    } else {
      k := 0;
    }
  }

  /** The wrapped value is the only one in range that differs from x by a multiple of 2^32. */
  lemma {:induction false} Int32Unique(x: int, r: int, k: int)
    requires INT_MIN <= r <= INT_MAX && x == r + k * INT_RANGE
    ensures Int32(x) == r
    decreases if k < 0 then -k else k
  {
    if k > 0 {
      Int32Unique(x - INT_RANGE, r, k - 1);
    } else if k < 0 {
      Int32Unique(x + INT_RANGE, r, k + 1);
    }
  }

  /** `encoded[index].code - 63` */
  function Code(c: char): int {
    c as int - 63
  }

  /** `b and 0x1f`: the low five bits. Dafny's `%` is Euclidean, so for a character below '?'
      (negative b) it still agrees with the two's complement mask. */
  function Chunk(c: char): (r: nat)
    ensures r < 32
    ensures 0 <= Code(c) < 32 ==> r == Code(c)
  {
    Code(c) % 32
  }

  /** `b >= 0x20`: the character is followed by another chunk of the same number. */
  predicate Continues(c: char) {
    Code(c) >= 0x20
  }

  function Pow2(n: nat): (r: nat)
    ensures r >= 1
  {
    if n == 0 then 1 else 2 * Pow2(n - 1)
  }

  lemma Pow2Plus5(n: nat)
    ensures Pow2(n + 5) == 32 * Pow2(n)
  {
    calc {
      Pow2(n + 5);
      2 * Pow2(n + 4);
      4 * Pow2(n + 3);
      8 * Pow2(n + 2);
      16 * Pow2(n + 1);
      32 * Pow2(n);
    }
  }

  /** Below p, plus at most 31 times p, stays below 32 times p. */
  lemma TopChunkBound(low: nat, c: nat, p: nat)
    requires low < p && c < 32
    ensures low + c * p < 32 * p
  {
    MulMonotone(c, 31, p);
  }

  lemma {:induction false} MulMonotone(a: nat, b: nat, p: nat)
    requires a <= b
    ensures a * p <= b * p
    decreases p
  {
    if p > 0 {
      MulMonotone(a, b, p - 1);
      assert a * p == a * (p - 1) + a && b * p == b * (p - 1) + b;
    }
  }

  lemma {:induction false} Pow2Monotone(m: nat, n: nat)
    requires m <= n
    ensures Pow2(m) <= Pow2(n)
    decreases n
  {
    if m < n {
      Pow2Monotone(m, n - 1);
    }
  }

  lemma Pow2Of30()
    ensures Pow2(30) == 0x4000_0000
  {
    Pow2Plus5(0); Pow2Plus5(5); Pow2Plus5(10); Pow2Plus5(15); Pow2Plus5(20); Pow2Plus5(25);
  }

  /**
   * The number whose first chunk is at index i: its raw (still zigzag-encoded) value and the
   * index just after its last chunk; None when the string ends while the continuation flag is
   * still set. Every number occupies at least one character, so reading always advances.
   */
  function ReadRaw(s: string, i: nat): (r: Option<(nat, nat)>)
    ensures r.Some? ==> i < r.value.1 <= |s|
    decreases |s| - i
  {
    if i >= |s| then None
    else if !Continues(s[i]) then Some((Chunk(s[i]), i + 1))
    else
      match ReadRaw(s, i + 1)
      case None => None
      case Some((rest, j)) => Some((Chunk(s[i]) + 32 * rest, j))
  }

  /** All numbers from index i to the end of the string, or None when the last one is cut
      short. A list is returned only when the numbers end exactly at the end of the string. */
  function Numbers(s: string, i: nat): (r: Option<seq<nat>>)
    requires i <= |s|
    ensures i == |s| ==> r == Some([])
    ensures r.Some? ==> |r.value| <= |s| - i
    decreases |s| - i
  {
    if i >= |s| then Some([])
    else
      match ReadRaw(s, i)
      case None => None
      case Some((raw, j)) =>
        match Numbers(s, j)
        case None => None
        case Some(rest) => Some([raw] + rest)
  }

  /** `if (result and 1 != 0) (result shr 1).inv() else result shr 1`: the zigzag decoding. */
  function Unzigzag(r: nat): (v: int)
    ensures Zigzag(v) == r
    ensures v < 0 <==> r % 2 == 1
    ensures r < 0x4000_0000 ==> -0x2000_0000 <= v < 0x2000_0000
  {
    if r % 2 == 1 then -(r / 2) - 1 else r / 2
  }

  /** The zigzag encoding the encoder applies before chunking: 0, -1, 1, -2, ... map to 0, 1, 2, 3, ... */
  function Zigzag(v: int): (r: nat)
    ensures r % 2 == 1 <==> v < 0
  {
    if v < 0 then -2 * v - 1 else 2 * v
  }

  /** The signed deltas of a list of raw numbers. */
  function Deltas(raws: seq<nat>): (ds: seq<int>)
  {
    seq(|raws|, k requires 0 <= k < |raws| => Unzigzag(raws[k]))
  }

  /** Pairs up the deltas (latitude first) and adds each pair onto the running accumulators,
      which start at (lat, lng); one point per pair. */
  function Accumulate(ds: seq<int>, lat: int, lng: int): (pts: seq<LatLng>)
    requires |ds| % 2 == 0
    ensures |pts| == |ds| / 2
    decreases |ds|
  {
    if ds == [] then []
    else
      var p := LatLng(Int32(lat + ds[0]), Int32(lng + ds[1]));
      [p] + Accumulate(ds[2..], p.lat, p.lng)
  }

  /**
   * The decoding in unbounded arithmetic: an odd count of numbers makes the second inner loop
   * read past the end, as does a number whose last character still has the continuation flag.
   * `decodePoly` computes the same at least when every number has at most six chunks
   * (`ChunksFit`, see `DecodePoly`). It stays exact while a raw value is below 2^31 and every
   * chunk after the seventh is zero; beyond that the 32-bit `shl` loses bits or sets the sign.
   */
  function Decode(s: string): (d: Decoded)
    ensures s == [] ==> d == Points([])
    ensures d.Points? <==> Numbers(s, 0).Some? && |Numbers(s, 0).value| % 2 == 0
    ensures d.Points? ==> 2 * |d.points| == |Numbers(s, 0).value|
  {
    match Numbers(s, 0)
    case None => IndexOutOfBounds
    case Some(raws) =>
      if |raws| % 2 == 1 then IndexOutOfBounds else Points(Accumulate(Deltas(raws), 0, 0))
  }

  /**
   * Every number of s from index i on has at most six chunks. Then `shift` stays at most 25 and
   * the value fits in 30 bits, so the JVM's 32-bit `shl` and `or` compute exactly what the
   * unbounded arithmetic of `ReadRaw` computes (`ReadNumber`, `ExactRead`). A number cut short
   * by the end of the string is no concern: `decodePoly` throws on it whatever its value.
   */
  ghost predicate ChunksFit(s: string, i: nat)
    decreases |s| - i
  {
    i < |s| ==>
      match ReadRaw(s, i)
      case None => true
      case Some((_, j)) => j - i <= 6 && ChunksFit(s, j)
  }

  /** Adds a low part and a scale to a number read further on: used to say what a partly read
      number will be once its remaining chunks are read. */
  function Shifted(r: Option<(nat, nat)>, low: nat, scale: nat): Option<(nat, nat)>
  {
    match r
    case None => None
    case Some((v, j)) => Some((low + scale * v, j))
  }

  function Prepended(p: seq<nat>, r: Option<seq<nat>>): Option<seq<nat>>
  {
    match r
    case None => None
    case Some(q) => Some(p + q)
  }

  /** The last decoded point, or the accumulators' start (0, 0) when there is none. */
  function LastOr(pts: seq<LatLng>, start: LatLng): LatLng
  {
    if pts == [] then start else pts[|pts| - 1]
  }

  lemma LastOfAppended(pts: seq<LatLng>, p: LatLng, start: LatLng)
    ensures LastOr(pts + [p], start) == p
  {
  }

  /**
   * `a or b` on two Kotlin `Int`s, bit by bit. Ints are held here as their 32-bit pattern read
   * unsigned; it differs from the signed value only when bit 31 is set, which a number of at
   * most six chunks never reaches.
   */
  function BitOr(a: nat, b: nat): (r: nat)
    ensures a <= r <= a + b
    ensures b <= r
    decreases a + b
  {
    if a == 0 then b
    else if b == 0 then a
    else (if a % 2 == 1 || b % 2 == 1 then 1 else 0) + 2 * BitOr(a / 2, b / 2)
  }

  /** `x shl n` on a Kotlin `Int`: the JVM uses the low five bits of the shift distance and
      keeps the low 32 bits of the product. */
  function Shl(x: nat, n: nat): (r: nat)
    ensures r < INT_RANGE
  {
    (x * Pow2(n % 32)) % INT_RANGE
  }

  /** An `or` with a value whose bits all lie above the bits of `low` is an addition. */
  lemma {:induction false} OrOfHigherBits(low: nat, c: nat, k: nat)
    requires low < Pow2(k)
    ensures BitOr(low, c * Pow2(k)) == low + c * Pow2(k)
    decreases k
  {
    if k > 0 && low > 0 && c > 0 {
      var h := c * Pow2(k - 1);
      assert c * Pow2(k) == 2 * h;
      OrOfHigherBits(low / 2, c, k - 1);
      assert BitOr(low, 2 * h) == low % 2 + 2 * BitOr(low / 2, h);
    }
  }

  /** The source's `result or (b and 0x1f shl shift)` for one of the first six chunks of a
      number: `shl` loses nothing and the `or` adds the chunk above the bits read so far. */
  lemma ChunkOrIsAddition(low: nat, c: nat, shift: nat)
    requires shift <= 25 && c < 32 && low < Pow2(shift)
    ensures BitOr(low, Shl(c, shift)) == low + c * Pow2(shift)
  {
    ShlOfSmall(c, shift);
    OrOfHigherBits(low, c, shift);
  }

  /** A chunk shifted by at most 25 stays below 2^30, so `shl` keeps all its bits. */
  lemma ShlOfSmall(c: nat, shift: nat)
    requires shift <= 25 && c < 32
    ensures Shl(c, shift) == c * Pow2(shift)
  {
    var p := Pow2(shift);
    MulMonotone(c, 31, p);
    Pow2Plus5(shift);
    Pow2AtMost30(shift + 5);
    ShlWithoutLoss(c, shift, c * p);
  }

  lemma Pow2AtMost30(n: nat)
    requires n <= 30
    ensures Pow2(n) <= 0x4000_0000
  {
    Pow2Monotone(n, 30);
    Pow2Of30();
  }

  lemma ShlWithoutLoss(x: nat, n: nat, product: int)
    requires n < 32 && product == x * Pow2(n) && product < INT_RANGE
    ensures Shl(x, n) == product
  {
    assert n % 32 == n;
  }

  /**
   * One `do { ... } while (b >= 0x20)` loop of `decodePoly` (the source has it twice, once for
   * each coordinate), with the source's own `or` and `shl`: reads the chunks of one number
   * starting at `start`. None stands for the exception thrown when `encoded[index++]` is past
   * the end. A number of at most six chunks is read exactly; a longer one ends at the same
   * index, but its bits above 31 are lost.
   */
  method ReadNumber(s: string, start: nat) returns (r: Option<(nat, nat)>)
    requires start <= |s|
    ensures r.None? <==> ReadRaw(s, start).None?
    ensures r.Some? ==> r.value.1 == ReadRaw(s, start).value.1
    ensures r.Some? && r.value.1 - start <= 6 ==> r == ReadRaw(s, start)
  {
    var index := start;
    var shift: nat := 0;
    var result: nat := 0;
    // the value of the chunks read so far in unbounded arithmetic
    ghost var exact: nat := 0;
    var more := true;
    while more
      invariant start <= index <= |s|
      invariant shift == 5 * (index - start)
      invariant index - start <= 6 ==> result == exact && exact < Pow2(shift)
      invariant more ==> ReadRaw(s, start) == Shifted(ReadRaw(s, index), exact, Pow2(shift))
      invariant !more ==> ReadRaw(s, start) == Some((exact, index))
      decreases |s| - index + (if more then 1 else 0)
    {
      if index >= |s| {
        return None;
      }
      var b := Code(s[index]);
      var next := BitOr(result, Shl(Chunk(s[index]), shift));
      exact := ReadNumberStep(s, start, index, shift, result, exact, next);
      result := next;
      index := index + 1;
      shift := shift + 5;
      more := b >= 0x20;
    }
    return Some((result, index));
  }

  /** One iteration of `ReadNumber`: the chunk at `index` joins the bits read so far, and the
      exact value grows by the chunk times 2^shift. */
  lemma ReadNumberStep(s: string, start: nat, index: nat, shift: nat, result: nat, exact: nat,
                       next: nat) returns (nextExact: nat)
    requires start <= index < |s| && shift == 5 * (index - start)
    requires index - start <= 6 ==> result == exact && exact < Pow2(shift)
    requires ReadRaw(s, start) == Shifted(ReadRaw(s, index), exact, Pow2(shift))
    requires next == BitOr(result, Shl(Chunk(s[index]), shift))
    ensures nextExact == exact + Chunk(s[index]) * Pow2(shift)
    ensures index + 1 - start <= 6 ==> next == nextExact && nextExact < Pow2(shift + 5)
    ensures Continues(s[index]) ==>
      ReadRaw(s, start) == Shifted(ReadRaw(s, index + 1), nextExact, Pow2(shift + 5))
    ensures !Continues(s[index]) ==> ReadRaw(s, start) == Some((nextExact, index + 1))
  {
    var c := Chunk(s[index]);
    var p := Pow2(shift);
    MulMonotone(0, c, p);
    nextExact := exact + c * p;
    ReadRawStep(s, index, exact, p);
    Pow2Plus5(shift);
    if index - start < 6 {
      ChunkOrIsAddition(result, c, shift);
      TopChunkBound(exact, c, p);
    }
  }

  /** One character of a number: a continuing chunk scales what follows by 32, a final chunk ends it. */
  lemma ReadRawStep(s: string, i: nat, low: nat, scale: nat)
    requires i < |s|
    ensures Continues(s[i]) ==>
      Shifted(ReadRaw(s, i), low, scale)
        == Shifted(ReadRaw(s, i + 1), low + Chunk(s[i]) * scale, 32 * scale)
    ensures !Continues(s[i]) ==>
      Shifted(ReadRaw(s, i), low, scale) == Some((low + Chunk(s[i]) * scale, i + 1))
  {
    if Continues(s[i]) {
      ShiftedTwice(ReadRaw(s, i + 1), Chunk(s[i]), low, scale);
    }
  }

  lemma ShiftedTwice(x: Option<(nat, nat)>, c: nat, low: nat, scale: nat)
    ensures Shifted(Shifted(x, c, 32), low, scale) == Shifted(x, low + c * scale, 32 * scale)
  {
    if x.Some? {
      var v := x.value.0;
      calc {
        low + scale * (c + 32 * v);
        low + scale * c + scale * (32 * v);
        { assert scale * (32 * v) == (32 * scale) * v; }
        low + c * scale + (32 * scale) * v;
      }
    }
  }

  /** Two numbers read one after the other are the first two of the numbers from i on. */
  lemma NumbersUnfoldPair(s: string, i: nat, a: nat, j: nat, b: nat, k: nat)
    requires i < |s| && ReadRaw(s, i) == Some((a, j))
    requires ReadRaw(s, j) == Some((b, k))
    ensures Numbers(s, i) == Prepended([a, b], Numbers(s, k))
  {
    assert j < |s|;
    assert Numbers(s, j) == Prepended([b], Numbers(s, k));
    assert Numbers(s, i) == Prepended([a], Numbers(s, j));
    PrependedTwice([a], [b], Numbers(s, k));
    assert [a] + [b] == [a, b];
  }

  lemma PrependedTwice(p: seq<nat>, q: seq<nat>, r: Option<seq<nat>>)
    ensures Prepended(p, Prepended(q, r)) == Prepended(p + q, r)
  {
    if r.Some? {
      assert p + (q + r.value) == (p + q) + r.value;
    }
  }

  /** Appending one pair of deltas appends exactly one point, the last point plus the pair. */
  lemma {:induction false} AccumulateSnoc(ds: seq<int>, a: int, b: int, lat: int, lng: int)
    requires |ds| % 2 == 0
    ensures
      var last := LastOr(Accumulate(ds, lat, lng), LatLng(lat, lng));
      Accumulate(ds + [a, b], lat, lng)
        == Accumulate(ds, lat, lng) + [LatLng(Int32(last.lat + a), Int32(last.lng + b))]
    decreases |ds|
  {
    if ds != [] {
      var p := LatLng(Int32(lat + ds[0]), Int32(lng + ds[1]));
      var rest := Accumulate(ds[2..], p.lat, p.lng);
      var longer := ds + [a, b];
      assert |longer| == |ds| + 2 && longer[0] == ds[0] && longer[1] == ds[1];
      assert |longer| % 2 == 0;
      assert longer[2..] == ds[2..] + [a, b];
      AccumulateSnoc(ds[2..], a, b, p.lat, p.lng);
      var last := LastOr(rest, p);
      var q := LatLng(Int32(last.lat + a), Int32(last.lng + b));
      assert Accumulate(ds, lat, lng) == [p] + rest;
      assert LastOr([p] + rest, LatLng(lat, lng)) == last;
      assert Accumulate(ds[2..] + [a, b], p.lat, p.lng) == rest + [q];
      assert Accumulate(longer, lat, lng) == [p] + Accumulate(longer[2..], p.lat, p.lng);
      assert [p] + (rest + [q]) == ([p] + rest) + [q];
    }
  }

  /** The loop step of `DecodePoly`, numbers: the two numbers read become the next pair of the
      numbers consumed. */
  lemma NumbersStep(s: string, index: nat, raws: seq<nat>, rawLat: nat, afterLat: nat, rawLng: nat, afterLng: nat)
    requires index < |s|
    requires ReadRaw(s, index) == Some((rawLat, afterLat))
    requires ReadRaw(s, afterLat) == Some((rawLng, afterLng))
    requires Numbers(s, 0) == Prepended(raws, Numbers(s, index))
    ensures afterLng <= |s|
    ensures Numbers(s, 0) == Prepended(raws + [rawLat, rawLng], Numbers(s, afterLng))
  {
    NumbersUnfoldPair(s, index, rawLat, afterLat, rawLng, afterLng);
    PrependedTwice(raws, [rawLat, rawLng], Numbers(s, afterLng));
  }

  /** The loop step of `DecodePoly`, points: the next point is the last one plus the two
      deltas. */
  lemma PointsStep(raws: seq<nat>, rawLat: nat, rawLng: nat, poly: seq<LatLng>,
                    lat: int, lng: int, dlat: int, dlng: int)
    requires |raws| % 2 == 0
    requires poly == Accumulate(Deltas(raws), 0, 0)
    requires LatLng(lat, lng) == LastOr(poly, LatLng(0, 0))
    requires dlat == Unzigzag(rawLat) && dlng == Unzigzag(rawLng)
    ensures Accumulate(Deltas(raws + [rawLat, rawLng]), 0, 0)
      == poly + [LatLng(Int32(lat + dlat), Int32(lng + dlng))]
    ensures LastOr(poly + [LatLng(Int32(lat + dlat), Int32(lng + dlng))], LatLng(0, 0))
      == LatLng(Int32(lat + dlat), Int32(lng + dlng))
  {
    AccumulateSnoc(Deltas(raws), dlat, dlng, 0, 0);
    DeltasAppend(raws, rawLat, rawLng);
    LastOfAppended(poly, LatLng(Int32(lat + dlat), Int32(lng + dlng)), LatLng(0, 0));
  }

  lemma DeltasAppend(raws: seq<nat>, a: nat, b: nat)
    ensures Deltas(raws + [a, b]) == Deltas(raws) + [Unzigzag(a), Unzigzag(b)]
  {
  }

  lemma MissingLatitude(s: string, index: nat, raws: seq<nat>)
    requires index < |s|
    requires ReadRaw(s, index) == None
    requires Numbers(s, 0) == Prepended(raws, Numbers(s, index))
    ensures Decode(s) == IndexOutOfBounds
  {
    assert Numbers(s, index) == None;
  }

  lemma AllRead(s: string, raws: seq<nat>)
    requires |raws| % 2 == 0
    requires Numbers(s, 0) == Prepended(raws, Numbers(s, |s|))
    ensures Decode(s) == Points(Accumulate(Deltas(raws), 0, 0))
  {
    assert raws + [] == raws;
  }

  /** When the longitude of a pair cannot be read, the whole string decodes to the exception:
      either the string ended right after the latitude (an odd count of numbers), or the
      longitude itself is cut short. */
  lemma MissingLongitude(s: string, index: nat, raws: seq<nat>, rawLat: nat, afterLat: nat)
    requires index < |s| && |raws| % 2 == 0
    requires ReadRaw(s, index) == Some((rawLat, afterLat))
    requires ReadRaw(s, afterLat) == None
    requires Numbers(s, 0) == Prepended(raws, Numbers(s, index))
    ensures Decode(s) == IndexOutOfBounds
  {
    if afterLat < |s| {
      assert Numbers(s, afterLat) == None;
    } else {
      assert Numbers(s, afterLat) == Some([]);
      assert Numbers(s, index) == Prepended([rawLat], Some([]));
      assert [rawLat] + [] == [rawLat];
      PrependedTwice(raws, [rawLat], Some([]));
      assert |raws + [rawLat] + []| % 2 == 1;
    }
  }

  /** Where the numbers fit in six chunks, `ReadNumber` reads exactly the number `ReadRaw`
      specifies, and the numbers after it still fit. */
  lemma ExactRead(s: string, i: nat, r: Option<(nat, nat)>)
    requires i <= |s| && ChunksFit(s, i)
    requires r.None? <==> ReadRaw(s, i).None?
    requires r.Some? ==> r.value.1 == ReadRaw(s, i).value.1
    requires r.Some? && r.value.1 - i <= 6 ==> r == ReadRaw(s, i)
    ensures r == ReadRaw(s, i)
    ensures r.Some? ==> ChunksFit(s, r.value.1)
  {
  }

  /**
   * `decodePoly` for the strings whose numbers fit in 32-bit arithmetic: an outer loop that
   * reads a latitude delta and a longitude delta, adds them onto `lat` and `lng` (Kotlin `Int`,
   * wrapping) and appends one point. Its result is the specification `Decode`.
   */
  method DecodePoly(encoded: string) returns (d: Decoded)
    requires ChunksFit(encoded, 0)
    ensures d == Decode(encoded)
  {
    var poly: seq<LatLng> := [];
    var index := 0;
    var len := |encoded|;
    var lat := 0;
    var lng := 0;
    ghost var raws: seq<nat> := [];
    assert Prepended(raws, Numbers(encoded, index)) == Numbers(encoded, 0) by {
      if Numbers(encoded, 0).Some? {
        assert [] + Numbers(encoded, 0).value == Numbers(encoded, 0).value;
      }
    }

    while index < len
      invariant index <= len
      invariant |raws| % 2 == 0
      invariant Numbers(encoded, 0) == Prepended(raws, Numbers(encoded, index))
      invariant poly == Accumulate(Deltas(raws), 0, 0)
      invariant LatLng(lat, lng) == LastOr(poly, LatLng(0, 0))
      invariant ChunksFit(encoded, index)
      decreases len - index
    {
      ghost var lat0, lng0 := lat, lng;
      var first := ReadNumber(encoded, index);
      ExactRead(encoded, index, first);
      if first.None? {
        MissingLatitude(encoded, index, raws);
        return IndexOutOfBounds;
      }
      var rawLat := first.value.0;
      var afterLat := first.value.1;
      var dlat := Unzigzag(rawLat);
      lat := Int32(lat + dlat);

      var second := ReadNumber(encoded, afterLat);
      ExactRead(encoded, afterLat, second);
      if second.None? {
        MissingLongitude(encoded, index, raws, rawLat, afterLat);
        return IndexOutOfBounds;
      }
      var rawLng := second.value.0;
      var afterLng := second.value.1;
      var dlng := Unzigzag(rawLng);
      lng := Int32(lng + dlng);

      PointsStep(raws, rawLat, rawLng, poly, lat0, lng0, dlat, dlng);
      NumbersStep(encoded, index, raws, rawLat, afterLat, rawLng, afterLng);
      ghost var next := raws + [rawLat, rawLng];
      poly := poly + [LatLng(lat, lng)];
      raws := next;
      index := afterLng;
    }
    AllRead(encoded, raws);
    return Points(poly);
  }
}
