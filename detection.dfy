/**
 The collision-detection engine. One pass looks at every pair `i < j` of a
 snapshot of the registry's keys, in loop order, and writes two symmetric
 entries into the warnings map for each pair at risk; a later pair that
 involves the same id overwrites the earlier entry.

 The pass is specified as `Run`, the loop body applied to the pairs in the
 loop's order (`LoopPairs`), and read back as `Overlay`, the per-pair
 entries laid over each other with later ones on top; `DetectCollision` is
 the loop itself, proved equal to `Run`.
 */
module Detection {
  import opened Modes
  import opened Physics

  /** A published warning: status, the peer's id (the `with` field) and the rounded figures. */
  datatype Warning = Warning(status: string, peer: string, distance: real, safeDistance: real)

  /** Everything a detection pass reads: the key snapshot, the registry, both modes and `Math.sqrt`. */
  datatype Snapshot = Snapshot(
    keys: seq<string>,
    devices: map<string, Device>,
    mode: SystemMode,
    control: real,
    sqrt: real -> real)

  /** A pair of positions in the key snapshot. */
  type Pair = (nat, nat)

  const RiskStatus: string := "RISK"
  /** Pairs where both speeds are below this are never flagged. */
  const LowSpeed: real := 5.0

  // ─── One pair ───

  function Abs(x: real): (r: real)
    ensures 0.0 <= r && (r == x || r == -x)
  {
    if x < 0.0 then -x else x
  }

  function Max(x: real, y: real): (r: real)
    ensures x <= r && y <= r && (r == x || r == y)
  {
    if x >= y then x else y
  }

  function RelativeVelocity(a: Device, b: Device): real {
    Abs(a.velocity - b.velocity)
  }

  /** The larger of the two stopping distances, both taken at the pair's relative velocity. */
  function SafeStop(a: Device, b: Device, control: real): real {
    var rv := RelativeVelocity(a, b);
    Max(StoppingDistance(rv, a.vehicleType, control), StoppingDistance(rv, b.vehicleType, control))
  }

  predicate BothSlow(a: Device, b: Device) {
    a.velocity < LowSpeed && b.velocity < LowSpeed
  }

  /** The pair is flagged: not both slow, and closer than the safe distance (unrounded). */
  predicate AtRisk(snap: Snapshot, a: Device, b: Device) {
    !BothSlow(a, b) && CalculateDistance(snap.mode, a, b, snap.sqrt) < SafeStop(a, b, snap.control)
  }

  /** The entry written for one side of the pair `a`, `b`, naming `peer`. */
  function Report(snap: Snapshot, peer: Device, a: Device, b: Device): Warning {
    Warning(RiskStatus, peer.id,
            Round2(CalculateDistance(snap.mode, a, b, snap.sqrt)),
            Round2(SafeStop(a, b, snap.control)))
  }

  /** The entries one pair writes: `a`'s first, then `b`'s, so `b`'s wins if the ids coincide. */
  function PairEntries(snap: Snapshot, a: Device, b: Device): map<string, Warning> {
    if AtRisk(snap, a, b) then
      map[a.id := Report(snap, b, a, b)][b.id := Report(snap, a, a, b)]
    else
      map[]
  }

  /** What the loop body does for positions `p`; a key missing from the registry is skipped. */
  function Contribution(snap: Snapshot, p: Pair): map<string, Warning> {
    if p.0 < |snap.keys| && p.1 < |snap.keys| && snap.keys[p.0] in snap.devices && snap.keys[p.1] in snap.devices
    then PairEntries(snap, snap.devices[snap.keys[p.0]], snap.devices[snap.keys[p.1]])
    else map[]
  }

  // ─── The loop order ───

  /** Pairs `(i, lo)`, …, `(i, hi - 1)`: what the inner loop of row `i` visits from `j = lo` on. */
  function RowPairs(i: nat, lo: nat, hi: nat): seq<Pair>
    decreases hi - lo
  {
    if lo < hi then [(i, lo)] + RowPairs(i, lo + 1, hi) else []
  }

  /** The pairs of rows `i` to `n - 1`, in loop order, over `n` keys. */
  function RowsFrom(i: nat, n: nat): seq<Pair>
    decreases n - i
  {
    if i < n then RowPairs(i, i + 1, n) + RowsFrom(i + 1, n) else []
  }

  function LoopPairs(n: nat): seq<Pair> {
    RowsFrom(0, n)
  }

  predicate LexLess(p: Pair, q: Pair) {
    p.0 < q.0 || (p.0 == q.0 && p.1 < q.1)
  }

  ghost predicate Ordered(ps: seq<Pair>) {
    forall a, b :: 0 <= a < b < |ps| ==> LexLess(ps[a], ps[b])
  }

  // ─── The pass ───

  /** The map after the loop body has run, starting from `acc`, for the pairs `ps` in order. */
  function Run(snap: Snapshot, acc: map<string, Warning>, ps: seq<Pair>): map<string, Warning>
    decreases |ps|
  {
    if ps == [] then acc else Run(snap, acc + Contribution(snap, ps[0]), ps[1..])
  }

  /** The warnings map one detection pass publishes: the loop run from an empty map. */
  function Warnings(snap: Snapshot): map<string, Warning> {
    Run(snap, map[], LoopPairs(|snap.keys|))
  }

  lemma {:induction false} RunAppend(snap: Snapshot, acc: map<string, Warning>, ps: seq<Pair>, qs: seq<Pair>)
    ensures Run(snap, acc, ps + qs) == Run(snap, Run(snap, acc, ps), qs)
    decreases |ps|
  {
    if ps != [] {
      assert (ps + qs)[1..] == ps[1..] + qs;
      RunAppend(snap, acc + Contribution(snap, ps[0]), ps[1..], qs);
    } else {
      assert ps + qs == qs;
    }
  }

  /**
   `detectCollision`: takes a snapshot of the registry's keys, in whatever
   order the map yields them, and runs the nested `i < j` loops over it.
   */
  method DetectCollision(devices: map<string, Device>, mode: SystemMode, control: real, sqrt: real -> real)
    returns (warnings: map<string, Warning>, keys: seq<string>)
    ensures KeyOrder(keys, devices)
    ensures warnings == Warnings(Snapshot(keys, devices, mode, control, sqrt))
  {
    keys := KeySnapshot(devices);
    var snap := Snapshot(keys, devices, mode, control, sqrt);
    var n := |keys|;
    warnings := map[];
    var i := 0;
    while i < n
      invariant 0 <= i <= n
      invariant Run(snap, warnings, RowsFrom(i, n)) == Warnings(snap)
    {
      RunAppend(snap, warnings, RowPairs(i, i + 1, n), RowsFrom(i + 1, n));
      warnings := CheckRow(snap, i, warnings);
      i := i + 1;
    }
  }

  /** One pass of the inner loop: position `i` against every later position. */
  method CheckRow(snap: Snapshot, i: nat, warnings: map<string, Warning>) returns (updated: map<string, Warning>)
    requires i < |snap.keys|
    ensures updated == Run(snap, warnings, RowPairs(i, i + 1, |snap.keys|))
  {
    var n := |snap.keys|;
    updated := warnings;
    var j := i + 1;
    while j < n
      invariant i + 1 <= j <= n
      invariant Run(snap, updated, RowPairs(i, j, n)) == Run(snap, warnings, RowPairs(i, i + 1, n))
    {
      assert RowPairs(i, j, n)[0] == (i, j) && RowPairs(i, j, n)[1..] == RowPairs(i, j + 1, n);
      updated := CheckPair(snap, i, j, updated);
      j := j + 1;
    }
  }

  /** `new ArrayList<>(devices.keySet())`: the registry's keys, each once, in an unspecified order. */
  method KeySnapshot(devices: map<string, Device>) returns (keys: seq<string>)
    ensures KeyOrder(keys, devices)
  {
    keys := [];
    var rest := devices.Keys;
    while rest != {}
      invariant Distinct(keys)
      invariant forall k :: k in keys ==> k in devices && k !in rest
      invariant forall k :: k in devices ==> k in keys || k in rest
      invariant rest <= devices.Keys
      decreases |rest|
    {
      var k :| k in rest;
      keys := keys + [k];
      rest := rest - {k};
    }
  }

  /** The body of the inner loop for positions `i < j`: two `put`s when the pair is at risk. */
  method CheckPair(snap: Snapshot, i: nat, j: nat, warnings: map<string, Warning>)
    returns (updated: map<string, Warning>)
    requires i < j < |snap.keys|
    ensures updated == warnings + Contribution(snap, (i, j))
  {
    updated := warnings;
    var devices := snap.devices;
    if snap.keys[i] !in devices || snap.keys[j] !in devices {
      return;
    }
    var a := devices[snap.keys[i]];
    var b := devices[snap.keys[j]];
    var distance := CalculateDistance(snap.mode, a, b, snap.sqrt);
    var vA := a.velocity;
    var vB := b.velocity;
    var relativeVelocity := Abs(vA - vB);
    var stopA := StoppingDistance(relativeVelocity, a.vehicleType, snap.control);
    var stopB := StoppingDistance(relativeVelocity, b.vehicleType, snap.control);
    var safeStop := Max(stopA, stopB);
    if vA < LowSpeed && vB < LowSpeed {
      return;
    }
    if distance < safeStop {
      var warnA := Warning(RiskStatus, b.id, Round2(distance), Round2(safeStop));
      var warnB := Warning(RiskStatus, a.id, Round2(distance), Round2(safeStop));
      updated := updated[a.id := warnA];
      updated := updated[b.id := warnB];
    }
  }

  // ─── Shape of the loop order ───

  lemma {:induction false} RowPairsShape(i: nat, lo: nat, hi: nat)
    ensures |RowPairs(i, lo, hi)| == if hi <= lo then 0 else hi - lo
    ensures forall k :: 0 <= k < |RowPairs(i, lo, hi)| ==> RowPairs(i, lo, hi)[k] == (i, lo + k)
    decreases hi - lo
  {
    if lo < hi {
      RowPairsShape(i, lo + 1, hi);
    }
  }

  lemma OrderedConcat(left: seq<Pair>, right: seq<Pair>)
    requires Ordered(left) && Ordered(right)
    requires forall p, q :: p in left && q in right ==> LexLess(p, q)
    ensures Ordered(left + right)
  {
    forall a, b | 0 <= a < b < |left + right|
      ensures LexLess((left + right)[a], (left + right)[b])
    {
      if b < |left| {
        assert (left + right)[a] == left[a] && (left + right)[b] == left[b];
      } else if a < |left| {
        assert (left + right)[a] == left[a] && (left + right)[b] == right[b - |left|];
        assert left[a] in left && right[b - |left|] in right;
      } else {
        assert (left + right)[a] == right[a - |left|] && (left + right)[b] == right[b - |left|];
      }
    }
  }

  /** Rows from `i` on hold exactly the pairs `p.0 < p.1 < n` with `i <= p.0`, in increasing order. */
  lemma {:induction false} RowsFromShape(i: nat, n: nat)
    ensures forall p :: p in RowsFrom(i, n) <==> i <= p.0 < p.1 < n
    ensures Ordered(RowsFrom(i, n))
    decreases n - i
  {
    if i < n {
      RowsFromShape(i + 1, n);
      RowPairsShape(i, i + 1, n);
      var left, right := RowPairs(i, i + 1, n), RowsFrom(i + 1, n);
      assert RowsFrom(i, n) == left + right;
      assert forall p :: p in left <==> p.0 == i && i < p.1 < n by {
        forall p: Pair | p.0 == i && i < p.1 < n
          ensures p in left
        {
          assert left[p.1 - i - 1] == p;
        }
      }
      OrderedConcat(left, right);
    }
  }

  /**
   The loop examines each unordered pair of distinct positions exactly once:
   the pairs it visits are exactly the `i < j`, and each comes strictly after
   the one before it, so none repeats.
   */
  lemma LoopPairsExactlyOnce(n: nat)
    ensures forall p :: p in LoopPairs(n) <==> p.0 < p.1 < n
    ensures forall a, b :: 0 <= a < b < |LoopPairs(n)| ==> LexLess(LoopPairs(n)[a], LoopPairs(n)[b])
    ensures forall a, b :: 0 <= a < b < |LoopPairs(n)| ==> LoopPairs(n)[a] != LoopPairs(n)[b]
  {
    RowsFromShape(0, n);
  }

  // ─── The pass as an overlay: the last writer wins ───

  /** Later maps overwrite earlier ones: the combined effect of a run of `put`s. */
  function Overlay(ms: seq<map<string, Warning>>): map<string, Warning>
    decreases |ms|
  {
    if ms == [] then map[] else ms[0] + Overlay(ms[1..])
  }

  /** The entries each pair of `ps` writes, in the order of `ps`. */
  function Contributions(snap: Snapshot, ps: seq<Pair>): (cs: seq<map<string, Warning>>)
    ensures |cs| == |ps|
    decreases |ps|
  {
    if ps == [] then [] else [Contribution(snap, ps[0])] + Contributions(snap, ps[1..])
  }

  lemma {:induction false} ContributionsAt(snap: Snapshot, ps: seq<Pair>, k: nat)
    requires k < |ps|
    ensures Contributions(snap, ps)[k] == Contribution(snap, ps[k])
    decreases |ps|
  {
    if 0 < k {
      ContributionsAt(snap, ps[1..], k - 1);
    }
  }

  /** Running the loop body over `ps` lays the pairs' entries over `acc`, later ones on top. */
  lemma {:induction false} RunIsOverlay(snap: Snapshot, acc: map<string, Warning>, ps: seq<Pair>)
    ensures Run(snap, acc, ps) == acc + Overlay(Contributions(snap, ps))
    decreases |ps|
  {
    if ps == [] {
      assert acc + map[] == acc;
    } else {
      var c := Contribution(snap, ps[0]);
      RunIsOverlay(snap, acc + c, ps[1..]);
      var cs := Contributions(snap, ps);
      assert cs[0] == c && cs[1..] == Contributions(snap, ps[1..]);
      UnionAssociative(acc, c, Overlay(cs[1..]));
    }
  }

  lemma UnionAssociative(x: map<string, Warning>, y: map<string, Warning>, z: map<string, Warning>)
    ensures (x + y) + z == x + (y + z)
  {
  }

  lemma WarningsAsOverlay(snap: Snapshot)
    ensures Warnings(snap) == Overlay(Contributions(snap, LoopPairs(|snap.keys|)))
  {
    var ms := Contributions(snap, LoopPairs(|snap.keys|));
    RunIsOverlay(snap, map[], LoopPairs(|snap.keys|));
    assert map[] + Overlay(ms) == Overlay(ms);
  }

  /** Map `k` of `ms` writes `id` and no later map does. */
  ghost predicate LastWriter(ms: seq<map<string, Warning>>, id: string, k: int) {
    0 <= k < |ms| && id in ms[k] &&
    forall k' :: k < k' < |ms| ==> id !in ms[k']
  }

  /**
   An id has an entry in the overlay exactly when some map wrote it, and the
   entry is the one the last such map wrote.
   */
  lemma {:induction false} OverlayLastWriterWins(ms: seq<map<string, Warning>>, id: string)
    ensures id in Overlay(ms) <==> exists k :: 0 <= k < |ms| && id in ms[k]
    ensures id in Overlay(ms) ==> exists k :: LastWriter(ms, id, k) && Overlay(ms)[id] == ms[k][id]
    decreases |ms|
  {
    if ms != [] {
      var rest := ms[1..];
      OverlayLastWriterWins(rest, id);
      assert forall k :: 0 <= k < |rest| ==> rest[k] == ms[k + 1];
      if id in Overlay(rest) {
        var k :| LastWriter(rest, id, k) && Overlay(rest)[id] == rest[k][id];
        assert LastWriter(ms, id, k + 1);
      } else if id in ms[0] {
        forall k' | 0 < k' < |ms|
          ensures id !in ms[k']
        {
          assert ms[k'] == rest[k' - 1];
        }
        assert LastWriter(ms, id, 0);
      }
    }
  }

  lemma LastWriterValue(ms: seq<map<string, Warning>>, id: string, k: int)
    requires LastWriter(ms, id, k)
    ensures id in Overlay(ms) && Overlay(ms)[id] == ms[k][id]
  {
    OverlayLastWriterWins(ms, id);
    var k' :| LastWriter(ms, id, k') && Overlay(ms)[id] == ms[k'][id];
    assert !(k < k') && !(k' < k);
  }

  // ─── What each entry means ───

  /**
   The entry `w` for `id` was written by the pair at positions `i < j`, which is
   at risk: `id` is one side of it, and `w` names the other side with the
   pair's rounded distance and safe distance.
   */
  ghost predicate Explains(snap: Snapshot, i: int, j: int, id: string, w: Warning) {
    0 <= i < j < |snap.keys| && snap.keys[i] in snap.devices && snap.keys[j] in snap.devices &&
    var a := snap.devices[snap.keys[i]];
    var b := snap.devices[snap.keys[j]];
    AtRisk(snap, a, b) &&
    w.status == RiskStatus &&
    if id == b.id then w == Report(snap, a, a, b) else id == a.id && w == Report(snap, b, a, b)
  }

  /** An entry a single pair writes is explained by that pair. */
  lemma ContributionExplains(snap: Snapshot, i: nat, j: nat, id: string)
    requires i < j < |snap.keys| && id in Contribution(snap, (i, j))
    ensures Explains(snap, i, j, id, Contribution(snap, (i, j))[id])
  {
  }

  /**
   Every published entry comes from a flagged pair, and from the last flagged
   pair in loop order that involves its id: no pair after it touches that id.
   */
  lemma WarningIsLastFlaggedPair(snap: Snapshot, id: string)
    requires id in Warnings(snap)
    ensures exists i, j ::
      Explains(snap, i, j, id, Warnings(snap)[id]) &&
      forall i', j' :: 0 <= i' < j' < |snap.keys| && LexLess((i, j), (i', j')) ==> id !in Contribution(snap, (i', j'))
  {
    var n := |snap.keys|;
    var ps := LoopPairs(n);
    var ms := Contributions(snap, ps);
    LoopPairsExactlyOnce(n);
    WarningsAsOverlay(snap);
    OverlayLastWriterWins(ms, id);
    var k :| LastWriter(ms, id, k) && Warnings(snap)[id] == ms[k][id];
    var (i, j) := ps[k];
    assert ps[k] in ps;
    ContributionsAt(snap, ps, k);
    ContributionExplains(snap, i, j, id);
    LaterPairsSilent(snap, id, k);
  }

  /** No pair after the last writer of `id` in loop order writes `id`. */
  lemma LaterPairsSilent(snap: Snapshot, id: string, k: int)
    requires LastWriter(Contributions(snap, LoopPairs(|snap.keys|)), id, k)
    ensures forall i', j' :: 0 <= i' < j' < |snap.keys| && LexLess(LoopPairs(|snap.keys|)[k], (i', j')) ==>
      id !in Contribution(snap, (i', j'))
  {
    var n := |snap.keys|;
    var ps := LoopPairs(n);
    LoopPairsExactlyOnce(n);
    forall i', j' | 0 <= i' < j' < n && LexLess(ps[k], (i', j'))
      ensures id !in Contribution(snap, (i', j'))
    {
      assert (i', j') in ps;
      var k' :| 0 <= k' < |ps| && ps[k'] == (i', j');
      ContributionsAt(snap, ps, k');
    }
  }

  /** Conversely, both ids of every flagged pair have an entry. */
  lemma FlaggedPairReported(snap: Snapshot, i: nat, j: nat)
    requires i < j < |snap.keys| && snap.keys[i] in snap.devices && snap.keys[j] in snap.devices
    requires AtRisk(snap, snap.devices[snap.keys[i]], snap.devices[snap.keys[j]])
    ensures snap.devices[snap.keys[i]].id in Warnings(snap)
    ensures snap.devices[snap.keys[j]].id in Warnings(snap)
  {
    var ps := LoopPairs(|snap.keys|);
    var ms := Contributions(snap, ps);
    LoopPairsExactlyOnce(|snap.keys|);
    WarningsAsOverlay(snap);
    assert (i, j) in ps;
    var k :| 0 <= k < |ps| && ps[k] == (i, j);
    ContributionsAt(snap, ps, k);
    OverlayLastWriterWins(ms, snap.devices[snap.keys[i]].id);
    OverlayLastWriterWins(ms, snap.devices[snap.keys[j]].id);
  }

  /**
   A flagged pair of two distinct ids, when no later pair in loop order
   writes either id, is published as a mutually referencing couple of entries.
   */
  lemma LastFlaggedPairMutual(snap: Snapshot, i: nat, j: nat)
    requires i < j < |snap.keys| && snap.keys[i] in snap.devices && snap.keys[j] in snap.devices
    requires AtRisk(snap, snap.devices[snap.keys[i]], snap.devices[snap.keys[j]])
    requires snap.devices[snap.keys[i]].id != snap.devices[snap.keys[j]].id
    requires var a, b := snap.devices[snap.keys[i]], snap.devices[snap.keys[j]];
      forall i', j' :: 0 <= i' < j' < |snap.keys| && LexLess((i, j), (i', j')) ==>
        a.id !in Contribution(snap, (i', j')) && b.id !in Contribution(snap, (i', j'))
    ensures var a, b := snap.devices[snap.keys[i]], snap.devices[snap.keys[j]];
      a.id in Warnings(snap) && b.id in Warnings(snap) &&
      Warnings(snap)[a.id].peer == b.id && Warnings(snap)[b.id].peer == a.id &&
      Warnings(snap)[a.id] == Report(snap, b, a, b) && Warnings(snap)[b.id] == Report(snap, a, a, b)
  {
    var n := |snap.keys|;
    var ps := LoopPairs(n);
    var ms := Contributions(snap, ps);
    LoopPairsExactlyOnce(n);
    WarningsAsOverlay(snap);
    assert (i, j) in ps;
    var k :| 0 <= k < |ps| && ps[k] == (i, j);
    var a, b := snap.devices[snap.keys[i]], snap.devices[snap.keys[j]];
    forall k' | k < k' < |ps|
      ensures a.id !in ms[k'] && b.id !in ms[k']
    {
      assert ps[k'] in ps && LexLess(ps[k], ps[k']);
      ContributionsAt(snap, ps, k');
    }
    ContributionsAt(snap, ps, k);
    assert ms[k] == PairEntries(snap, a, b);
    assert LastWriter(ms, a.id, k);
    assert LastWriter(ms, b.id, k);
    LastWriterValue(ms, a.id, k);
    LastWriterValue(ms, b.id, k);
  }

  // ─── Pairs that are never flagged ───

  /** Both speeds below the threshold: no warning, whatever the distance. */
  lemma SlowPairNeverFlagged(snap: Snapshot, a: Device, b: Device)
    requires a.velocity < LowSpeed && b.velocity < LowSpeed
    ensures PairEntries(snap, a, b) == map[]
  {
  }

  /** Equal speeds give relative velocity 0, so the safe distance is 0 and nothing is closer. */
  lemma EqualSpeedsNeverFlagged(snap: Snapshot, a: Device, b: Device)
    requires SqrtLaws(snap.sqrt) && a.velocity == b.velocity
    ensures PairEntries(snap, a, b) == map[]
  {
    DistanceNonNegative(snap.mode, a, b, snap.sqrt);
    StoppingDistanceAtRest(a.vehicleType, snap.control);
    StoppingDistanceAtRest(b.vehicleType, snap.control);
  }

  /** A fleet in which every device is below the threshold has no warnings at all. */
  lemma QuietFleetHasNoWarnings(snap: Snapshot)
    requires forall k :: k in snap.devices ==> snap.devices[k].velocity < LowSpeed
    ensures Warnings(snap) == map[]
  {
    if id :| id in Warnings(snap) {
      WarningIsLastFlaggedPair(snap, id);
    }
  }

  /** The safe distance is the bike stopping distance if either side is a bike, the car one otherwise. */
  lemma SafeStopByType(a: Device, b: Device, control: real)
    ensures a.vehicleType == "BIKE" || b.vehicleType == "BIKE" ==>
      SafeStop(a, b, control) == StoppingDistance(RelativeVelocity(a, b), "BIKE", control)
    ensures a.vehicleType != "BIKE" && b.vehicleType != "BIKE" ==>
      SafeStop(a, b, control) == StoppingDistance(RelativeVelocity(a, b), a.vehicleType, control)
  {
    var rv := RelativeVelocity(a, b);
    BikeStopsFarther(rv, a.vehicleType, control);
    BikeStopsFarther(rv, b.vehicleType, control);
  }

  /** The control mode enters the safe distance only: the reported separation does not depend on it. */
  lemma ControlModeKeepsSeparation(snap: Snapshot, control: real, peer: Device, a: Device, b: Device)
    ensures Report(snap.(control := control), peer, a, b).distance == Report(snap, peer, a, b).distance
  {
  }

  /** A larger reaction multiplier never shortens a pair's safe distance. */
  lemma SafeStopMonotoneInControl(a: Device, b: Device, c1: real, c2: real)
    requires c1 <= c2
    ensures SafeStop(a, b, c1) <= SafeStop(a, b, c2)
  {
    var rv := RelativeVelocity(a, b);
    StoppingDistanceMonotoneInControl(rv, a.vehicleType, c1, c2);
    StoppingDistanceMonotoneInControl(rv, b.vehicleType, c1, c2);
  }

  /** The offsets and the bound on which `RiskTestOnSquares` reads a distance test. */
  function OffsetX(mode: SystemMode, a: Device, b: Device): real {
    if mode == Indoor then a.x - b.x else a.lat - b.lat
  }

  function OffsetY(mode: SystemMode, a: Device, b: Device): real {
    if mode == Indoor then a.y - b.y else a.lng - b.lng
  }

  function SquaredBound(mode: SystemMode, safe: real): real {
    var bound := if mode == Indoor then safe else safe / MetresPerDegree;
    bound * bound
  }

  /** Against a non-negative bound, the distance test is a test on squared offsets. */
  lemma RiskTestOnSquares(mode: SystemMode, a: Device, b: Device, sqrt: real -> real, safe: real)
    requires SqrtLaws(sqrt) && 0.0 <= safe
    ensures CalculateDistance(mode, a, b, sqrt) < safe <==>
      OffsetX(mode, a, b) * OffsetX(mode, a, b) + OffsetY(mode, a, b) * OffsetY(mode, a, b) < SquaredBound(mode, safe)
  {
    if mode == Indoor {
      PlanarBelowIffSquares(a.x - b.x, a.y - b.y, safe, sqrt);
    } else {
      var planar := Planar(a.lat - b.lat, a.lng - b.lng, sqrt);
      assert planar * MetresPerDegree < safe <==> planar < safe / MetresPerDegree;
      PlanarBelowIffSquares(a.lat - b.lat, a.lng - b.lng, safe / MetresPerDegree, sqrt);
    }
  }

  lemma SafeStopNonNegative(a: Device, b: Device, control: real)
    requires 0.0 <= control
    ensures 0.0 <= SafeStop(a, b, control)
  {
    StoppingDistanceNonNegative(RelativeVelocity(a, b), a.vehicleType, control);
  }

  /**
   With a non-negative multiplier the risk test can be read on squares:
   indoors on `dx² + dy²` against the squared safe distance, outdoors on the
   squared degree offset against the safe distance converted to degrees.
   */
  lemma AtRiskOnSquares(snap: Snapshot, a: Device, b: Device)
    requires SqrtLaws(snap.sqrt) && 0.0 <= snap.control
    ensures var dx, dy := OffsetX(snap.mode, a, b), OffsetY(snap.mode, a, b);
      AtRisk(snap, a, b) <==> !BothSlow(a, b) && dx * dx + dy * dy < SquaredBound(snap.mode, SafeStop(a, b, snap.control))
  {
    SafeStopNonNegative(a, b, snap.control);
    RiskTestOnSquares(snap.mode, a, b, snap.sqrt, SafeStop(a, b, snap.control));
  }

  // ─── The published map under the registry's invariants ───

  /** Registry keys agree with the ids of the records they hold. */
  ghost predicate KeysMatchIds(devices: map<string, Device>) {
    forall k :: k in devices ==> devices[k].id == k
  }

  ghost predicate Distinct(keys: seq<string>) {
    forall a, b :: 0 <= a < b < |keys| ==> keys[a] != keys[b]
  }

  /** `keys` enumerates the registry's keys, each once, in some order. */
  ghost predicate KeyOrder(keys: seq<string>, devices: map<string, Device>) {
    Distinct(keys) && forall k :: k in keys <==> k in devices
  }

  lemma SubsetCard(a: set<string>, b: set<string>)
    requires a <= b
    ensures |a| <= |b|
  {
    assert b == a + (b - a);
    assert a * (b - a) == {};
  }

  /**
   Over a registry whose keys are its ids, every entry is keyed by a device's
   id, has status RISK and names another device; hence there is at most one
   entry per device.
   */
  lemma WarningsWellFormed(snap: Snapshot)
    requires KeyOrder(snap.keys, snap.devices) && KeysMatchIds(snap.devices)
    ensures forall id :: id in Warnings(snap) ==>
      id in snap.devices && Warnings(snap)[id].status == RiskStatus &&
      Warnings(snap)[id].peer in snap.devices && Warnings(snap)[id].peer != id
    ensures |Warnings(snap)| <= |snap.devices|
  {
    forall id | id in Warnings(snap)
      ensures id in snap.devices && Warnings(snap)[id].status == RiskStatus
      ensures Warnings(snap)[id].peer in snap.devices && Warnings(snap)[id].peer != id
    {
      WarningIsLastFlaggedPair(snap, id);
      var i, j :| Explains(snap, i, j, id, Warnings(snap)[id]);
      assert snap.keys[i] != snap.keys[j];
    }
    SubsetCard(Warnings(snap).Keys, snap.devices.Keys);
  }
}
