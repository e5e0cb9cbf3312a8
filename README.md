# watchdogs-map: polyline decoding, turn instructions and map rules in Dafny

This project models three pieces of logic of the watchdogs-map Android apps and proves properties of them:

- **`Polyline`, `PolylineProperties`** model `decodePoly` of the GTA map activity. It is a decoder of
  Google's Encoded Polyline Algorithm Format.
  - Each character carries a 5-bit chunk: the low five bits of its code minus 63 (`and 0x1f`).
  - The number goes on while the code minus 63 is at least 0x20. For the characters '_' to '~' that is
    bit 0x20; any character above '~' also continues the number.
  - Numbers are zigzag-encoded: an odd raw value is negative.
  - The numbers come in pairs (latitude delta, then longitude delta). Each pair is added onto two
    Kotlin `Int` accumulators, and every pair yields one point.
  - Points are the two accumulators, in integer units of 1e-5 degrees, before the division by 1E5 and
    the Maps `LatLng` constructor.
  - `DecodePoly` is the imperative loop, with an outer `while` and the `do … while` loop of one number
    as `ReadNumber`, which uses the source's own `or` and 32-bit `shl` (`BitOr`, `Shl`). `Decode`
    is the same decoding in unbounded arithmetic. The two agree when every number has at most six
    chunks (`ChunksFit`), and `DecodePoly` is proved equal to `Decode` on those strings.
  - The properties proved about `Decode` cover: what one number is, when decoding throws, that the
    points are running sums of the deltas, that the numbers fit 32-bit arithmetic, and that decoding
    inverts the format's encoder. The encoder is a separate reference definition.
  - The format's published worked example is decoded in `StandardExample`.
- **`TurnInstructions`** models `TurnInstructionsAdapter`.
  - It is a class holding the instruction list and the highlighted position, plus the log of the
    notifications it sends to its RecyclerView.
  - The row each position shows is modelled: its text, its turn icon and its highlight.
  - The turn-icon rule is "left" first, then "right", both case-insensitive.
- **`WatchDogsMap`** models the rules of the MapLibre navigation activity:
  - the route-progress loop of `onLocationChanged`: the first step reached within 20 m is highlighted;
  - the periodic `scanForNearbyPois`: highlights from the previous scan are reverted, then every ATM
    point within 500 m is highlighted, in source order, and the features are written back;
  - the routing-profile choice and the guard on route requests of the navigate button.

  GeoJSON features are objects (`class Feature`) whose `icon` is rewritten in place. This keeps the
  aliasing of the source: a feature in both `highlightedFeatures` and the marker source is one object,
  and the revert pass is seen by the scan. Distance (`LatLng.distanceTo`) is a function parameter.

`Common` holds the `Option` type used for Kotlin's nullable values.

## Model

| member | source | states |
|---|---|---|
| Polyline.Int32 | app/src/main/java/com/example/gtamap/MainActivity.kt:191 | `lat += dlat` on a Kotlin `Int` yields a value in [-2^31, 2^31) |
| Polyline.Int32Quotient | app/src/main/java/com/example/gtamap/MainActivity.kt:191 | the wrapped sum differs from the true sum by a whole multiple of 2^32 |
| Polyline.Int32Unique | app/src/main/java/com/example/gtamap/MainActivity.kt:201 | the wrapped value is the only in-range value congruent to the sum modulo 2^32 |
| Polyline.Chunk | app/src/main/java/com/example/gtamap/MainActivity.kt:186-187 | `b and 0x1f` is below 32 and equals `code - 63` for the characters '?' to '^' |
| Polyline.ReadRaw | app/src/main/java/com/example/gtamap/MainActivity.kt:185-189 | reading one number always advances the index, and never past the end of the string |
| Polyline.Numbers | app/src/main/java/com/example/gtamap/MainActivity.kt:181-205 | at the end of the string no numbers are left; there are never more numbers than characters |
| Polyline.Unzigzag | app/src/main/java/com/example/gtamap/MainActivity.kt:190 | `shr 1` / `inv()` decoding is the inverse of zigzag encoding; the value is negative exactly when the raw value is odd; a raw value below 2^30 gives a delta in [-2^29, 2^29) |
| Polyline.Zigzag | app/src/main/java/com/example/gtamap/MainActivity.kt:200 | the encoder's zigzag map gives an odd raw value exactly for negative deltas |
| Polyline.Accumulate | app/src/main/java/com/example/gtamap/MainActivity.kt:203-204 | one point is appended per pair of deltas |
| Polyline.Decode | app/src/main/java/com/example/gtamap/MainActivity.kt:174-207 | the decoding in unbounded arithmetic: the empty string decodes to no points; decoding succeeds exactly when all numbers are complete and their count is even; it then gives half as many points as numbers |
| Polyline.BitOr | app/src/main/java/com/example/gtamap/MainActivity.kt:187 | `a or b`, bit by bit: the result is at least each operand and at most their sum |
| Polyline.Shl | app/src/main/java/com/example/gtamap/MainActivity.kt:187 | `x shl n` on a Kotlin `Int` uses the shift modulo 32 and keeps 32 bits |
| Polyline.OrOfHigherBits | app/src/main/java/com/example/gtamap/MainActivity.kt:187 | an `or` with a value whose bits all lie above those of the other operand is an addition |
| Polyline.ShlOfSmall | app/src/main/java/com/example/gtamap/MainActivity.kt:187-188 | a chunk shifted by at most 25 loses no bits to `shl` |
| Polyline.ChunkOrIsAddition | app/src/main/java/com/example/gtamap/MainActivity.kt:187-188 | for the first six chunks of a number, `result or (chunk shl shift)` is `result + chunk * 2^shift` |
| Polyline.ReadNumber | app/src/main/java/com/example/gtamap/MainActivity.kt:183-189 | the `do … while (b >= 0x20)` loop with the source's `or` and `shl` throws exactly when `ReadRaw` finds the number cut short, ends at the same index, and yields exactly `ReadRaw`'s number when it has at most six chunks; while at most six chunks are read, the bits read stay below 2^shift |
| Polyline.ReadNumberStep | app/src/main/java/com/example/gtamap/MainActivity.kt:186-189 | one iteration adds the chunk at the current shift to the exact value; while at most six chunks are read the `or` result equals it and stays below 2^(shift+5); the rest of the number is read on from the next character, or the number ends there |
| Polyline.ExactRead | app/src/main/java/com/example/gtamap/MainActivity.kt:183-199 | where the numbers fit in six chunks, each read is exactly `ReadRaw`'s and the numbers after it still fit |
| Polyline.ReadRawStep | app/src/main/java/com/example/gtamap/MainActivity.kt:186-188 | one character either adds its chunk at the current shift and continues with 32 times the scale, or ends the number |
| Polyline.NumbersUnfoldPair | app/src/main/java/com/example/gtamap/MainActivity.kt:185-199 | the two numbers an outer iteration reads are the next two of the string's numbers |
| Polyline.AccumulateSnoc | app/src/main/java/com/example/gtamap/MainActivity.kt:191-204 | one more pair of deltas appends exactly one point: the previous point plus the pair, wrapped |
| Polyline.NumbersStep | app/src/main/java/com/example/gtamap/MainActivity.kt:181-199 | after an outer iteration, the numbers consumed so far are followed by the numbers still to read |
| Polyline.PointsStep | app/src/main/java/com/example/gtamap/MainActivity.kt:190-204 | after an outer iteration, the point list is the running sums of all deltas read, and its last point equals the accumulators |
| Polyline.DeltasAppend | app/src/main/java/com/example/gtamap/MainActivity.kt:190-200 | the deltas of two more numbers are their zigzag decodings |
| Polyline.MissingLatitude | app/src/main/java/com/example/gtamap/MainActivity.kt:186 | a latitude cut short by the end of the string makes the whole decode throw |
| Polyline.MissingLongitude | app/src/main/java/com/example/gtamap/MainActivity.kt:196 | a missing or cut-short longitude makes the whole decode throw |
| Polyline.AllRead | app/src/main/java/com/example/gtamap/MainActivity.kt:181 | when the loop ends with every number read in pairs, the points are the running sums of all deltas |
| Polyline.DecodePoly | app/src/main/java/com/example/gtamap/MainActivity.kt:174-207 | on a string whose numbers have at most six chunks, the imperative decoder returns exactly `Decode(encoded)`, points or exception |
| PolylineProperties.ChunkSumFront | app/src/main/java/com/example/gtamap/MainActivity.kt:187 | the chunks of a number are its first chunk plus 32 times the rest |
| PolylineProperties.ReadRawIsChunkSum | app/src/main/java/com/example/gtamap/MainActivity.kt:185-189 | a number read from i ends at j exactly when every character before j-1 continues and j-1 does not; its value is the sum of the k-th chunk times 2^(5k) |
| PolylineProperties.ReadRawNone | app/src/main/java/com/example/gtamap/MainActivity.kt:185-189 | a number is cut short exactly when every character to the end continues |
| PolylineProperties.ChunkSumBound | app/src/main/java/com/example/gtamap/MainActivity.kt:187-188 | n chunks make a value below 2^(5n) |
| PolylineProperties.ChunksFitBounds | app/src/main/java/com/example/gtamap/MainActivity.kt:187-190 | with at most six chunks per number, every raw value is below 2^30 and every delta lies in [-2^29, 2^29), so `shr 1` and `inv()` only see non-negative values below 2^30 |
| PolylineProperties.TrailingContinuationFails | app/src/main/java/com/example/gtamap/MainActivity.kt:196 | a last character with the continuation flag set makes decoding throw |
| PolylineProperties.NumbersCutShort | app/src/main/java/com/example/gtamap/MainActivity.kt:186 | from any index, a string ending on a continuing character has no complete list of numbers |
| PolylineProperties.OddCountExamples | app/src/main/java/com/example/gtamap/MainActivity.kt:193-201 | "?" (one number) throws in the longitude loop; "??" is the point (0, 0) |
| PolylineProperties.Int32AddWrapped | app/src/main/java/com/example/gtamap/MainActivity.kt:191 | wrapping after every addition equals wrapping the whole sum once |
| PolylineProperties.AccumulateIsRunning | app/src/main/java/com/example/gtamap/MainActivity.kt:191-204 | the i-th point is the start plus the running sum of the deltas up to pair i, wrapped |
| PolylineProperties.RunningIsPrefixSum | app/src/main/java/com/example/gtamap/MainActivity.kt:191-201 | the running sums are the sums of the first i+1 latitude (even-position) and longitude (odd-position) deltas |
| PolylineProperties.AccumulateIsPrefixSums | app/src/main/java/com/example/gtamap/MainActivity.kt:191-204 | the i-th point's latitude is the sum of the first i+1 latitude deltas, and likewise its longitude, wrapped to 32 bits |
| PolylineProperties.DecodedPointsArePrefixSums | app/src/main/java/com/example/gtamap/MainActivity.kt:174-207 | every point `decodePoly` builds, as its accumulators before the `LatLng` constructor, is the prefix sum of the decoded deltas, wrapped to 32 bits |
| PolylineProperties.ZigzagRoundTrip | app/src/main/java/com/example/gtamap/MainActivity.kt:190 | decoding the zigzag of a delta gives the delta back |
| PolylineProperties.ReadRawOfEncodeRaw | app/src/main/java/com/example/gtamap/MainActivity.kt:185-189 | reading the encoding of a number gives the number back and stops right after it |
| PolylineProperties.EncodeRawLength | app/src/main/java/com/example/gtamap/MainActivity.kt:187-188 | a number below 2^(5k) encodes in at most k characters |
| PolylineProperties.EncodeRawsFront | app/src/main/java/com/example/gtamap/MainActivity.kt:185-189 | the first number of an encoded list is read back and the rest of the encoding follows it |
| PolylineProperties.NumbersOfEncodeRaws | app/src/main/java/com/example/gtamap/MainActivity.kt:181-205 | reading all numbers of an encoded list gives the list back |
| PolylineProperties.EncodeRawsFit | app/src/main/java/com/example/gtamap/MainActivity.kt:187 | numbers below 2^30 encode in at most six chunks each |
| PolylineProperties.AccumulateDifferences | app/src/main/java/com/example/gtamap/MainActivity.kt:191-204 | adding up the differences of 32-bit points gives the points back |
| PolylineProperties.DecodeEncode | app/src/main/java/com/example/gtamap/MainActivity.kt:174-207 | `Decode` (unbounded arithmetic) inverts the encoding of any 32-bit points; the accumulators of `decodePoly` round-trip at least when every delta lies in [-2^29, 2^29), for then the encoding meets `DecodePoly`'s precondition |
| PolylineProperties.ExampleEncoding | app/src/main/java/com/example/gtamap/MainActivity.kt:174-207 | the encoder turns the three points of the published worked example into its published encoding |
| PolylineProperties.StandardExample | app/src/main/java/com/example/gtamap/MainActivity.kt:174-207 | `decodePoly` accepts the published example, and its accumulators give (3850000, -12020000), (4070000, -12095000), (4325200, -12645300), that is (38.5, -120.2), (40.7, -120.95), (43.252, -126.453) degrees |
| TurnInstructions.LeftWins | WatchDogsMap_New/app/src/main/java/com/jeremylakeyjr/watchdogsmap/TurnInstructionsAdapter.kt:46-47 | a text containing "left" in any case shows the left icon, even if it also says "right" |
| TurnInstructions.RightWithoutLeft | WatchDogsMap_New/app/src/main/java/com/jeremylakeyjr/watchdogsmap/TurnInstructionsAdapter.kt:47-48 | a text containing "right" in any case and no "left" shows the right icon |
| TurnInstructions.IconIgnoresCase | WatchDogsMap_New/app/src/main/java/com/jeremylakeyjr/watchdogsmap/TurnInstructionsAdapter.kt:46-50 | the icon does not depend on the case of the text |
| TurnInstructions.NoStaleRow | WatchDogsMap_New/app/src/main/java/com/jeremylakeyjr/watchdogsmap/TurnInstructionsAdapter.kt:31-39 | every row whose highlight changes is notified, and only the previous and the new rows are notified |
| TurnInstructions.TurnInstructionsAdapter.constructor | WatchDogsMap_New/app/src/main/java/com/jeremylakeyjr/watchdogsmap/TurnInstructionsAdapter.kt:9-11 | a new adapter holds the given list, highlights position 0 and has sent nothing |
| TurnInstructions.TurnInstructionsAdapter.UpdateInstructions | WatchDogsMap_New/app/src/main/java/com/jeremylakeyjr/watchdogsmap/TurnInstructionsAdapter.kt:18-29 | the list is replaced and one data-set-changed notification is sent; afterwards there is one row per new step, each showing its step's text, and only the first row is highlighted |
| TurnInstructions.TurnInstructionsAdapter.SetHighlightedPosition | WatchDogsMap_New/app/src/main/java/com/jeremylakeyjr/watchdogsmap/TurnInstructionsAdapter.kt:18-39 | the list is unchanged; the previous then the new position are notified, each unless it is -1; afterwards exactly the row at the new position is highlighted, and every row whose highlight changed was notified |
| TurnInstructions.TurnInstructionsAdapter.AtMostOneHighlighted | WatchDogsMap_New/app/src/main/java/com/jeremylakeyjr/watchdogsmap/TurnInstructionsAdapter.kt:18-21 | in any state, at most one bound row is highlighted |
| WatchDogsMap.FirstStep | WatchDogsMap_New/app/src/main/java/com/jeremylakeyjr/watchdogsmap/MainActivity.kt:250-263 | a match is a step within 20 m of its valid first waypoint; a failure is a step with a negative first waypoint; every step before either (or every step, when none) is neither |
| WatchDogsMap.MatchStep | WatchDogsMap_New/app/src/main/java/com/jeremylakeyjr/watchdogsmap/MainActivity.kt:250-263 | the loop with `continue` and `break` finds exactly the step `FirstStep` describes |
| WatchDogsMap.RouteMatch | WatchDogsMap_New/app/src/main/java/com/jeremylakeyjr/watchdogsmap/MainActivity.kt:243-248 | no route, a route with no features, or a first feature that is not a line matches no step; otherwise the match is `FirstStep` over the line's coordinates |
| WatchDogsMap.RevertIdempotent | WatchDogsMap_New/app/src/main/java/com/jeremylakeyjr/watchdogsmap/MainActivity.kt:380-384 | reverting a feature twice is reverting it once |
| WatchDogsMap.OtherIconsUnchanged | WatchDogsMap_New/app/src/main/java/com/jeremylakeyjr/watchdogsmap/MainActivity.kt:380-397 | a feature that is neither an ATM nor highlighted keeps its icon through the scan |
| WatchDogsMap.DistantAtmReverts | WatchDogsMap_New/app/src/main/java/com/jeremylakeyjr/watchdogsmap/MainActivity.kt:380-397 | a highlighted ATM 500 m or more from the user goes back to "atm" |
| WatchDogsMap.ScanIsStable | WatchDogsMap_New/app/src/main/java/com/jeremylakeyjr/watchdogsmap/MainActivity.kt:375-402 | scanning again from the same place leaves every icon as the first scan left it |
| WatchDogsMap.InOrder | WatchDogsMap_New/app/src/main/java/com/jeremylakeyjr/watchdogsmap/MainActivity.kt:389-397 | the highlight list holds exactly the selected features of the source and no others |
| WatchDogsMap.InOrderKeepsOrder | WatchDogsMap_New/app/src/main/java/com/jeremylakeyjr/watchdogsmap/MainActivity.kt:389-399 | highlighted features keep their source order |
| WatchDogsMap.RoutingProfile | WatchDogsMap_New/app/src/main/java/com/jeremylakeyjr/watchdogsmap/MainActivity.kt:110-115 | the walking id gives "walking", otherwise the cycling id gives "cycling", anything else "driving", each in both directions |
| WatchDogsMap.MainActivity.constructor | WatchDogsMap_New/app/src/main/java/com/jeremylakeyjr/watchdogsmap/MainActivity.kt:184-188 | the activity starts with no location, destination, route, highlight or request, and an empty instruction list |
| WatchDogsMap.MainActivity.OnAddressSelected | WatchDogsMap_New/app/src/main/java/com/jeremylakeyjr/watchdogsmap/MainActivity.kt:153-154 | the chosen address becomes the destination and nothing else of the state changes |
| WatchDogsMap.MainActivity.OnNavigateClick | WatchDogsMap_New/app/src/main/java/com/jeremylakeyjr/watchdogsmap/MainActivity.kt:107-117 | one route request with the chosen profile is made exactly when both the location and the destination are known |
| WatchDogsMap.MainActivity.ShowRoute | WatchDogsMap_New/app/src/main/java/com/jeremylakeyjr/watchdogsmap/MainActivity.kt:331-340 | the route becomes a single line feature and its steps replace the turn instructions, highlight reset to 0 |
| WatchDogsMap.MainActivity.OnLocationChanged | WatchDogsMap_New/app/src/main/java/com/jeremylakeyjr/watchdogsmap/MainActivity.kt:237-265 | the location is recorded; the highlight moves, with notifications, only to a matched step that differs from it; it stays otherwise; a negative waypoint is reported as the exception |
| WatchDogsMap.MainActivity.ScanForNearbyPois | WatchDogsMap_New/app/src/main/java/com/jeremylakeyjr/watchdogsmap/MainActivity.kt:375-402 | with no marker features nothing changes; otherwise the features are written back unchanged in order, the highlight list holds exactly the ATM points within 500 m (after the revert) in source order, each feature's icon is the scan's result, and reverted features outside the source end as "atm" |
| WatchDogsMap.MainActivity.Rescan | WatchDogsMap_New/app/src/main/java/com/jeremylakeyjr/watchdogsmap/MainActivity.kt:379-401 | the revert pass followed by the highlight pass: the selection, its order and every icon |
| WatchDogsMap.MainActivity.RevertHighlighted | WatchDogsMap_New/app/src/main/java/com/jeremylakeyjr/watchdogsmap/MainActivity.kt:380-384 | every previously highlighted feature ending in "_highlighted" is back to "atm", the others keep their icon |
| WatchDogsMap.MainActivity.HighlightIfNear | WatchDogsMap_New/app/src/main/java/com/jeremylakeyjr/watchdogsmap/MainActivity.kt:390-397 | an ATM point within 500 m gets "atm_highlighted" and joins the list; any other feature is left as it is |
| WatchDogsMap.MainActivity.HighlightNearby | WatchDogsMap_New/app/src/main/java/com/jeremylakeyjr/watchdogsmap/MainActivity.kt:388-399 | the features to write back are the source's, in order; the list holds the qualifying ones in order; only they change icon |

## Left out

- DecodePoly: requires that every number has at most six chunks (`ChunksFit`). A seventh chunk (shift 30) loses its bits above bit 31 to `shl`, and bit 31 becomes the sign; from the eighth chunk on the shift is also taken modulo 32. `ReadNumber` computes those bits, but the decoding of such a number is not modelled. `DecodeEncode` shows that every encoding with deltas in [-2^29, 2^29) meets the requirement.
- Decode: uses unbounded arithmetic for the value of each number. It agrees with `decodePoly` at least under `ChunksFit`. The source stays exact while every raw value is below 2^31 and every chunk after the seventh is zero, so it round-trips deltas in [-2^30, 2^30); the model proves agreement only for six chunks. The first failing case is the single point (2^30, 0): its latitude needs a seventh chunk of 2, and `Decode` gives latitude 2^30 while `decodePoly` gives -2^30.
- Polyline.ReadNumber: an Int is held as its 32-bit pattern read unsigned. This equals the signed value for every number of at most six chunks. The `shift` counter is unbounded; the source's `Int` counter would wrap only after hundreds of millions of chunks.
- Polyline.Unzigzag: `shr 1` and `inv()` are modelled by their arithmetic meaning on a non-negative value (halving, and `-x - 1`), not bit by bit.
- The final `lat.toDouble() / 1E5` of `decodePoly` is floating point, and the Maps `LatLng` constructor it feeds clamps latitude to [-90, 90] and wraps longitude into [-180, 180). Neither is modelled: points are the accumulators, in integer units of 1e-5 degrees. A decoded latitude beyond 90 degrees, such as the point (10_000_000, 0), comes back from `decodePoly` clamped to 90.
- Characters are Unicode scalar values. Kotlin's `Char` is a UTF-16 code unit, so strings holding surrogate pairs are not modelled. The polyline alphabet (codes 63 to 126) is unaffected.
- TurnInstructions.IconFor: `contains(…, ignoreCase = true)` is modelled with ASCII case folding only; Kotlin also folds non-ASCII letters.
- `LatLng.distanceTo` is floating-point geodesy and is taken as a function parameter; positions are `real`.
- WatchDogsMap.MainActivity.ScanForNearbyPois: requires that the marker source does not hold the same feature object twice. Whether MapLibre hands back the same feature objects from scan to scan is not part of the model; the contract covers both cases through object identity.
- A feature without an "icon" property, for which `getStringProperty` returns null and `endsWith` throws, is not modelled: every feature has an icon.
- WatchDogsMap.MainActivity.OnLocationChanged: the exception of a negative first waypoint is reported as `crashed` instead of ending the callback abruptly. The update of the user-location marker source (`setGeoJson`) and `scrollToPosition` are UI calls and are left out.
- WatchDogsMap.MainActivity.ShowRoute: only the state change of `getRoute`'s success path is modelled. The HTTP request, response parsing, the coroutine, `runOnUiThread`, the route source update and the swallowed exceptions are I/O and concurrency.
- The scanner `Handler` that repeats the scan every three seconds is a timer. Each scan is one synchronous call with the user's location as a parameter.
- UI wiring is left out as SDK glue: view inflation (`onCreateViewHolder`), background colours, visibility changes, camera moves, the map-click info popup, the hack-button animation, permissions and lifecycle forwarding.
- Search (`searchLocation`, `Geocoder`, `SearchResultsAdapter`) and `RoutingService` are I/O.
- The other files of the repository are not part of this model: the GTA activity apart from `decodePoly`, `OverpassApi.kt`, the older `app/.../watchdogsmap/MainActivity.kt`, `football-field-coordinates/script.js` and the build files.
