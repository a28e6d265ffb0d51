# Collision prevention server — a Dafny model

The collision prevention server keeps a registry of moving devices (cars and
bikes), keyed by device id. Each device reports its speed, an indoor position
`x`/`y` and an outdoor position `lat`/`lng`. After every change the server
re-runs a pairwise collision-risk detector and publishes the resulting map of
warnings. Two process-wide settings drive the detector:

- the **system mode** (INDOOR or OUTDOOR) chooses the distance metric;
- the **control mode** (HUMAN, ADAS or AUTONOMOUS) is stored as a reaction-time
  multiplier (1.0, 0.6 or 0.3).

This project models that core in Dafny. The files are:

- `wrappers.dfy` — `Option`, for request fields that may be absent.
- `modes.dfy` — the mode controller. It covers upper-casing of ASCII letters, `ı` and `ſ`, recognising
  the mode names, the "unknown value is ignored" update rule, and the control
  mode's display name, which is derived back from the multiplier.
- `physics.dfy` — the pure arithmetic over `real`: reaction time, stopping
  distance, the indoor, outdoor and mode-selected distances, and the
  two-decimal presentation rounding. `Math.sqrt` is a parameter `sqrt`
  constrained by `SqrtLaws`: for `q >= 0`, `sqrt(q) >= 0` and
  `sqrt(q) * sqrt(q) == q`. Monotonicity and `sqrt(0) == 0` are proved from
  these laws (`SqrtMonotone`, `SqrtOfSquare`).
- `detection.dfy` — the detection pass.
  - `DetectCollision` is the nested `i < j` loop as imperative code
    (`KeySnapshot`, `CheckRow`, `CheckPair`).
  - It is proved equal to the function `Warnings`, which runs the loop body
    over the pairs in loop order (`Run`, `LoopPairs`).
  - `Warnings` is then read back through an independent reference definition,
    `Overlay`, in which the per-pair entries are laid over each other and
    later ones win. The lemmas about what each published entry means go
    through `Overlay`.
- `server.dfy` — the class `CollisionServer`, holding the registry, both
  modes, the published warnings and `Math.sqrt`. Its methods are the
  state-changing bodies of `/api/update`, `/api/mode` and `/api/clear`. The
  class invariant `Valid` says that the published map is the detection pass
  over the current registry and modes, in the order of the last key snapshot.
  It holds after every request that runs to completion; a request that fails
  partway, which can leave the warnings stale, is not modelled (see
  "## Left out").
- `scenarios.dfy` — small fleets whose published map is computed outright.

The order of the key snapshot (`new ArrayList<>(devices.keySet())`) is left
open. `KeySnapshot` may return the keys in any order, each exactly once, and
every Detection and Server property is proved for all such orders.

The code writes two entries for each flagged pair, and a later flagged pair
overwrites an earlier entry for the same id. So a flagged pair is not always
published as a mutually referencing couple: `Scenarios.OverwriteBreaksSymmetry`
exhibits three devices where A's entry names C while B's entry names A. The
model follows the code. The mutual-reference property is proved for a
flagged pair of two distinct ids when no later pair in loop order writes
either of them (`LastFlaggedPairMutual`).

## Model

| member | source | states |
|---|---|---|
| Modes.UpperChar | CollisionServer.java:194 | lower-case ASCII letters are shifted to upper case, dotless `ı` becomes `I` and long `ſ` becomes `S`, every other character is kept, and the result is never one of those |
| Modes.ToUpper | CollisionServer.java:194 | `toUpperCase` keeps the length and upper-cases each character in place |
| Modes.FoldedSpellingsSelect | CollisionServer.java:193-203 | `"ındoor"`, `"adaſ"` and `"autonomouſ"` upper-case to mode names and so select INDOOR, ADAS and AUTONOMOUS |
| Modes.CombiningDotKept | CollisionServer.java:193-196 | outside a Lithuanian locale, `"i\u0307ndoor"` upper-cases to `"I\u0307NDOOR"`, which is no mode name, so the system mode is kept |
| Modes.ToUpperIdempotent | CollisionServer.java:194 | upper-casing an upper-cased value changes nothing more |
| Modes.SystemModeName | CollisionServer.java:11-12 | the stored system mode is always shown as an upper-case name |
| Modes.ParseSystemMode | CollisionServer.java:195 | exactly "INDOOR" and "OUTDOOR" are recognised, each as the mode whose name it is |
| Modes.SystemModeNameRoundTrip | CollisionServer.java:195 | the shown name of a mode is recognised as that mode |
| Modes.NextSystemMode | CollisionServer.java:193-196 | an absent field keeps the mode; a value that upper-cases to INDOOR or OUTDOOR selects that mode; any other value keeps the mode |
| Modes.NextSystemModeByName | CollisionServer.java:193-196 | a value that upper-cases to a mode's name, in any letter case, selects that mode from any current mode |
| Modes.ControlMultiplier | CollisionServer.java:199-203 | exactly HUMAN, ADAS and AUTONOMOUS are recognised, and each gives one of the three multipliers |
| Modes.ControlModeName | CollisionServer.java:209-210 | the shown control name is always one of the three upper-case names |
| Modes.ControlModeNameRoundTrip | CollisionServer.java:199-210 | each of the three multipliers is shown as the name that selects it |
| Modes.NextControlMode | CollisionServer.java:197-204 | an absent field keeps the multiplier; HUMAN, ADAS and AUTONOMOUS set 1.0, 0.6 and 0.3; any other value keeps it, since the switch has no default; a valid multiplier stays valid |
| Modes.ControlModeSetThenShow | CollisionServer.java:197-210 | setting a recognised control name and then showing the mode gives back that name |
| Physics.BrakingDistance | CollisionServer.java:35 | computes `v² / (2 · deceleration)` with the deceleration of the vehicle's type |
| Physics.StoppingDistance | CollisionServer.java:32-37 | computes `v · (1.0 · multiplier) + v² / (2 · deceleration)`: the reaction distance plus the braking distance |
| Physics.IndoorDistance | CollisionServer.java:39-43 | computes `sqrt(dx² + dy²)` over the `x`/`y` offsets |
| Physics.OutdoorDistance | CollisionServer.java:45-49 | computes `sqrt(dx² + dy²) · 111000` over the `lat`/`lng` offsets |
| Physics.CalculateDistance | CollisionServer.java:51-53 | the indoor distance in INDOOR mode, the outdoor distance otherwise |
| Physics.Round2 | CollisionServer.java:82-83 | computes `floor(100 · x + 0.5) / 100`, `Math.round(x * 100.0) / 100.0` over the reals |
| Physics.ReactionTime | CollisionServer.java:28-30 | for each of the three multipliers the reaction time is positive and at most the base reaction time |
| Physics.Deceleration | CollisionServer.java:34 | the deceleration is 6.0 exactly for the tag "BIKE" and 7.0 for every other tag |
| Physics.StoppingDistanceFormula | CollisionServer.java:32-37 | stopping distance is `v · multiplier + v²/12` for a bike and `v · multiplier + v²/14` otherwise |
| Physics.StoppingDistanceNonNegative | CollisionServer.java:32-37 | stopping distance is non-negative for a non-negative speed and multiplier |
| Physics.StoppingDistanceAtRest | CollisionServer.java:32-37 | at speed 0 the stopping distance is 0, whatever the type and mode |
| Physics.BikeStopsFarther | CollisionServer.java:34-36 | at the same speed a bike's stopping distance is at least that of any other type |
| Physics.StoppingDistanceMonotoneInSpeed | CollisionServer.java:32-37 | a higher non-negative speed never gives a shorter stopping distance |
| Physics.StoppingDistanceMonotoneInControl | CollisionServer.java:28-33 | a larger multiplier never gives a shorter stopping distance |
| Physics.DistanceNonNegative | CollisionServer.java:39-53 | the distance is non-negative in both modes |
| Physics.DistanceSymmetric | CollisionServer.java:39-53 | the distance from A to B equals the distance from B to A in both modes |
| Physics.DistanceZeroAtSamePosition | CollisionServer.java:39-53 | the distance is 0 when the coordinates the mode consults coincide |
| Physics.DistanceUsesModeCoordinatesOnly | CollisionServer.java:39-53 | INDOOR reads only `x`/`y` and OUTDOOR only `lat`/`lng` |
| Physics.OutdoorScalesPlanar | CollisionServer.java:45-49 | the OUTDOOR distance is 111000 times the planar distance over `lat`/`lng` |
| Physics.PlanarBelowIffSquares | CollisionServer.java:42 | for a non-negative bound, the planar distance is below it exactly when the sum of squares is below its square |
| Physics.PlanarMonotone | CollisionServer.java:42 | a smaller sum of squared offsets never gives a larger planar distance |
| Physics.Round2Close | CollisionServer.java:82-83 | rounding to hundredths moves a value by at most half a hundredth |
| Physics.Round2NonNegative | CollisionServer.java:82-83 | rounding keeps a non-negative value non-negative |
| Physics.Round2Hundredths | CollisionServer.java:82-83 | a value already in hundredths is reported unchanged |
| Detection.Abs | CollisionServer.java:70 | `Math.abs` is non-negative and is the value or its negation |
| Detection.Max | CollisionServer.java:74 | `Math.max` bounds both arguments and is one of them |
| Detection.SafeStop | CollisionServer.java:70-74 | the larger of the two stopping distances, both taken at the relative speed `|vA − vB|` with each side's vehicle type |
| Detection.AtRisk | CollisionServer.java:76-78 | holds when the two speeds are not both below 5 and the unrounded distance is below the safe distance |
| Detection.Report | CollisionServer.java:79-89 | the entry naming the peer: status RISK, the peer's id, and the rounded distance and safe distance |
| Detection.PairEntries | CollisionServer.java:78-92 | for an at-risk pair, A's id mapped to the entry naming B and then B's id mapped to the entry naming A; nothing otherwise |
| Detection.Contribution | CollisionServer.java:63-93 | what the loop body writes for positions `(i, j)`: nothing when either key is missing from the registry, the pair's entries otherwise |
| Detection.Run | CollisionServer.java:61-95 | the map after applying the loop body to each pair of a list in turn, starting from a given map |
| Detection.LoopPairs | CollisionServer.java:61-62 | the pairs of positions in the order the two loops visit them |
| Detection.Overlay | CollisionServer.java:91-92 | the per-pair entry maps laid over each other, later maps on top |
| Detection.Warnings | CollisionServer.java:57-97 | the map a detection pass returns: the loop body applied from an empty map to the pairs in loop order |
| Detection.DetectCollision | CollisionServer.java:57-97 | the loop snapshots the keys, each once, in some order, and returns exactly `Warnings` of that snapshot, registry and both modes |
| Detection.KeySnapshot | CollisionServer.java:59 | the snapshot lists every registry key exactly once, in an unspecified order |
| Detection.CheckRow | CollisionServer.java:62-94 | the inner loop for row `i` applies the loop body to `(i, i+1)`, …, `(i, n-1)` in that order |
| Detection.CheckPair | CollisionServer.java:63-93 | the body for `(i, j)` lays that pair's entries over the map: none when a key is missing, when both speeds are below 5, or when the distance is not below the safe distance; otherwise A's entry naming B and then B's entry naming A |
| Detection.RunAppend | CollisionServer.java:61-62 | running the body over two runs of pairs in turn is running it over their concatenation |
| Detection.RowPairsShape | CollisionServer.java:62 | the inner loop visits `(i, lo)`, …, `(i, hi-1)` in that order |
| Detection.RowsFromShape | CollisionServer.java:61-62 | the rows from `i` on visit exactly the pairs `i <= p.0 < p.1 < n`, in strictly increasing lexicographic order |
| Detection.LoopPairsExactlyOnce | CollisionServer.java:61-62 | the loops visit exactly the pairs of positions `i < j`, each once, in lexicographic order |
| Detection.Contributions | CollisionServer.java:61-93 | there is one per-pair entry map for each visited pair |
| Detection.ContributionsAt | CollisionServer.java:63-93 | the `k`-th entry map is the one the `k`-th visited pair writes |
| Detection.RunIsOverlay | CollisionServer.java:91-92 | running the body over pairs from a map is that map overlaid with the pairs' entries, later pairs on top |
| Detection.WarningsAsOverlay | CollisionServer.java:57-97 | the published map is the overlay of the per-pair entries in loop order |
| Detection.OverlayLastWriterWins | CollisionServer.java:91-92 | an id has an entry exactly when some pair wrote it, and the entry is the one the last such pair wrote |
| Detection.LastWriterValue | CollisionServer.java:91-92 | the last pair to write an id decides its published entry |
| Detection.ContributionExplains | CollisionServer.java:76-92 | an entry written by one pair comes from an at-risk pair, has status RISK and names the pair's other side with the pair's rounded distance and safe distance |
| Detection.WarningIsLastFlaggedPair | CollisionServer.java:61-95 | every published entry is explained by a flagged pair, the unrounded distance being below the safe distance, and no later pair in loop order writes that id |
| Detection.LaterPairsSilent | CollisionServer.java:61-95 | no pair after the last writer of an id writes that id |
| Detection.FlaggedPairReported | CollisionServer.java:78-92 | both ids of every flagged pair have a published entry |
| Detection.LastFlaggedPairMutual | CollisionServer.java:78-92 | when no later pair writes either id, a flagged pair of two distinct ids is published as two entries naming each other, with the pair's figures |
| Detection.SlowPairNeverFlagged | CollisionServer.java:76 | a pair with both speeds below 5 writes nothing, whatever the distance |
| Detection.EqualSpeedsNeverFlagged | CollisionServer.java:70-78 | equal speeds give a safe distance of 0, so the pair writes nothing |
| Detection.QuietFleetHasNoWarnings | CollisionServer.java:76 | if every device is below 5, the published map is empty |
| Detection.SafeStopByType | CollisionServer.java:72-74 | the safe distance is the bike stopping distance at the relative speed when either side is a bike, and the common one otherwise |
| Detection.ControlModeKeepsSeparation | CollisionServer.java:67-83 | changing the control mode does not change a reported separation |
| Detection.SafeStopMonotoneInControl | CollisionServer.java:72-74 | a larger multiplier never gives a shorter safe distance |
| Detection.RiskTestOnSquares | CollisionServer.java:39-53 | for a non-negative bound, the mode's distance is below it exactly when the squared offsets sum to less than the squared bound, the bound converted to degrees outdoors |
| Detection.SafeStopNonNegative | CollisionServer.java:70-74 | the safe distance is never negative for a non-negative control multiplier |
| Detection.AtRiskOnSquares | CollisionServer.java:76-78 | the risk test is equivalent to comparing squared offsets with the squared safe distance, converted to degrees outdoors |
| Detection.WarningsWellFormed | CollisionServer.java:57-97 | over a registry keyed by ids, every entry is keyed by a registered id, has status RISK and names another registered device, and there are no more entries than devices |
| Server.Upsert | CollisionServer.java:142-144 | the put replaces the record under the device's id with the new record stamped with the clock, leaves every other key alone and keeps keys equal to ids |
| Server.UpsertReplaces | CollisionServer.java:143-144 | a second upsert for the same id, stamped with any later clock reading, leaves no trace of the first, its timestamp included |
| Server.CollisionServer.constructor | CollisionServer.java:14-24 | the server starts with an empty registry, INDOOR, HUMAN control and no warnings |
| Server.CollisionServer.Publish | CollisionServer.java:145 | recomputing publishes the detection pass of the current registry and modes, and changes nothing else |
| Server.CollisionServer.Update | CollisionServer.java:142-151 | the registry becomes the upsert of the stamped record; the warnings are recomputed; the reply carries the device's own entry exactly when it has one |
| Server.CollisionServer.SetModes | CollisionServer.java:192-210 | each mode changes by its update rule, the registry is unchanged, the warnings are recomputed, and both current names are returned |
| Server.CollisionServer.Clear | CollisionServer.java:264-265 | the registry and the warnings are both empty afterwards, whatever they held, and the modes are unchanged |
| Server.CollisionServer.PublishedWellFormed | CollisionServer.java:57-97 | every published entry is keyed by a registered device, has status RISK and names another registered device; there are never more warnings than devices |
| Server.CollisionServer.PublishedExplained | CollisionServer.java:78-92 | every published entry is explained by a flagged pair of the last key snapshot |
| Server.CollisionServer.QuietRegistryPublishesNothing | CollisionServer.java:76 | when every registered device is below 5, nothing is published |
| Scenarios.TwoKeyWarnings | CollisionServer.java:61-62 | with two keys, the only pair visited is `(0, 1)` |
| Scenarios.ThreeKeyPairs | CollisionServer.java:61-62 | with three keys, the loops visit `(0,1)`, `(0,2)` and `(1,2)` in that order |
| Scenarios.IndoorCarsFlagged | CollisionServer.java:57-97 | INDOOR and HUMAN, a car at (0,0) doing 20 and a stopped car at (10,0): both are flagged, each naming the other, with distance 10.0 and safe distance 48.57, in either snapshot order |
| Scenarios.SlowCarsNotFlagged | CollisionServer.java:76 | the same positions with both cars at 3 publish nothing |
| Scenarios.OutdoorSameSpotFlagged | CollisionServer.java:45-92 | OUTDOOR, same latitude and longitude, speeds 30 apart: both are flagged with status RISK and distance 0.0, naming each other, in any control mode and either key order |
| Scenarios.OverwriteBreaksSymmetry | CollisionServer.java:91-92 | three devices at one spot, one moving: B's entry names A while A's entry names C, because later puts overwrite |

## Left out

- HTTP transport is not modelled: CORS headers, reading request bodies, encoding replies and OPTIONS handling (CollisionServer.java:101-129). This is I/O.
- The server bootstrap, thread pool and start-up banner (CollisionServer.java:133-136, 269-281) are not modelled. They are process plumbing.
- Concurrency is not modelled: the `ConcurrentHashMap` and `volatile` publication, and recompute passes racing each other. Each handler that runs to completion is one atomic step; only for those does the published map match the current registry and modes.
- JSON parsing and the library's exceptions for missing or ill-typed fields (CollisionServer.java:142, 153-157, 193-198, 205, 212-213) are not modelled. A device is a complete typed record, and the 400 error replies are not modelled. A request that throws partway can still change state while leaving the warnings stale, which `Valid` does not allow. In `/api/mode`, line 195 may set the system mode before `getString` at line 198 throws on a non-string `control_mode`. Likewise, `detectCollision` at line 205 can throw on a stored record that lacks the coordinates the new mode reads; in both cases the catch at 212-213 skips the recompute. In `/api/update`, line 144 stores the record before line 145 can throw, so a 400 reply does not always leave the registry unchanged.
- The wall-clock reading `System.currentTimeMillis()` (CollisionServer.java:143) is the parameter `now` of `CollisionServer.Update`.
- `Math.sqrt` is the parameter `sqrt`. The model assumes only the laws of the real square root (`SqrtLaws`).
- Arithmetic is over `real`. IEEE-754 rounding, overflow and the `long` range of `Math.round` are not modelled.
- Physics.Round2: models `Math.round(x * 100.0) / 100.0` as `floor(100·x + 0.5) / 100` over the reals, without double rounding.
- Modes.ToUpper: upper-cases ASCII letters, dotless `ı` and long `ſ`. Under a default locale other than Turkish, Azeri or Lithuanian (the three languages whose upper-casing the JDK tailors) these are the only characters whose upper case can spell part of a mode name: the ligatures and `ß` expand to `FF`, `FI`, `FL`, `ST` or `SS`, none of which occurs in a mode name. So a value is recognised as a mode name exactly as in the source. The model assumes such a locale. Under a Turkish or Azeri locale, `i` becomes `İ`, so `"indoor"` upper-cases to `"İNDOOR"` and line 195 ignores it, while `NextSystemModeByName` has it select INDOOR. Under a Lithuanian locale, a combining dot above (U+0307) after `i` is dropped, so `"i\u0307ndoor"` upper-cases to `"INDOOR"` and line 195 selects INDOOR, while `CombiningDotKept` shows that the model keeps the dot and the mode. The model keeps every other character, while `String.toUpperCase` also maps other alphabets and can change the length of a string. None of those results is a mode name in either case.
- The read-only endpoints `/api/devices`, `/api/warnings` and `/api/status` (CollisionServer.java:161-186, 218-228) are not modelled. They only serialise the state; their one derived fact, `risk_count <= device_count`, is `CollisionServer.PublishedWellFormed`.
- `/api/simulate` (CollisionServer.java:231-258) is not modelled. It fills the registry with random demo data. It clears the registry, inserts exactly the five ids `device_1` to `device_5`, and recomputes.
- The `A == null || B == null` skip (CollisionServer.java:65) cannot trigger in a sequential run. The snapshot is taken from the registry itself. `CheckPair` and `Contribution` keep the branch anyway.
- Speeds and coordinates are unconstrained reals. Where a property needs non-negative speeds, its lemma requires them.
