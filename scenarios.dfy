/**
 Worked fleets: the published map computed outright for small registries,
 including one that shows the overwrite rule breaking pairwise symmetry.
 */
module Scenarios {
  import opened Modes
  import opened Physics
  import opened Detection

  function Car(id: string, velocity: real, x: real, y: real, lat: real, lng: real): Device {
    Device(id, "CAR", velocity, x, y, lat, lng, 0)
  }

  /** A two-device registry in the given order; a two-key snapshot has no other pair. */
  lemma TwoKeyWarnings(snap: Snapshot)
    requires |snap.keys| == 2
    ensures Warnings(snap) == Contribution(snap, (0, 1))
  {
    assert LoopPairs(2) == [(0, 1)] by {
      assert RowPairs(0, 1, 2) == [(0, 1)];
      assert RowsFrom(1, 2) == [];
    }
    assert map[] + Contribution(snap, (0, 1)) == Contribution(snap, (0, 1));
  }

  lemma ThreeKeyPairs()
    ensures LoopPairs(3) == [(0, 1), (0, 2), (1, 2)]
  {
    assert RowPairs(0, 1, 3) == [(0, 1), (0, 2)];
    assert RowsFrom(1, 3) == [(1, 2)] by {
      assert RowPairs(1, 2, 3) == [(1, 2)];
      assert RowsFrom(2, 3) == [];
    }
  }

  /**
   INDOOR, HUMAN control: a car at (0, 0) doing 20 and a stationary car at
   (10, 0). The safe distance is 20 + 400/14 ≈ 48.57 > 10, so both are
   flagged, each naming the other, with distance 10.00 and safe distance 48.57.
   */
  lemma IndoorCarsFlagged(sqrt: real -> real, keys: seq<string>)
    requires SqrtLaws(sqrt)
    requires keys == ["A", "B"] || keys == ["B", "A"]
    ensures var devices := map["A" := Car("A", 20.0, 0.0, 0.0, 0.0, 0.0), "B" := Car("B", 0.0, 10.0, 0.0, 0.0, 0.0)];
      Warnings(Snapshot(keys, devices, Indoor, HumanMode, sqrt)) ==
        map["A" := Warning(RiskStatus, "B", 10.0, 48.57), "B" := Warning(RiskStatus, "A", 10.0, 48.57)]
  {
    var a, b := Car("A", 20.0, 0.0, 0.0, 0.0, 0.0), Car("B", 0.0, 10.0, 0.0, 0.0, 0.0);
    var snap := Snapshot(keys, map["A" := a, "B" := b], Indoor, HumanMode, sqrt);
    TwoKeyWarnings(snap);
    SqrtOfSquare(sqrt, 10.0);
    assert CalculateDistance(Indoor, a, b, sqrt) == 10.0 && CalculateDistance(Indoor, b, a, sqrt) == 10.0 by {
      assert (0.0 - 10.0) * (0.0 - 10.0) + (0.0 - 0.0) * (0.0 - 0.0) == 10.0 * 10.0;
      assert (10.0 - 0.0) * (10.0 - 0.0) + (0.0 - 0.0) * (0.0 - 0.0) == 10.0 * 10.0;
    }
    var safe := 20.0 + 400.0 / 14.0;
    assert SafeStop(a, b, HumanMode) == safe && SafeStop(b, a, HumanMode) == safe;
    Round2Hundredths(1000);
    assert Round2(10.0) == 10.0;
    assert Round2(safe) == 48.57 by {
      assert (safe * 100.0 + 0.5).Floor == 4857;
    }
  }

  /** The same positions with both cars at 3: the low-speed exclusion leaves the map empty. */
  lemma SlowCarsNotFlagged(sqrt: real -> real, keys: seq<string>)
    ensures var devices := map["A" := Car("A", 3.0, 0.0, 0.0, 0.0, 0.0), "B" := Car("B", 3.0, 10.0, 0.0, 0.0, 0.0)];
      Warnings(Snapshot(keys, devices, Indoor, HumanMode, sqrt)) == map[]
  {
    var devices := map["A" := Car("A", 3.0, 0.0, 0.0, 0.0, 0.0), "B" := Car("B", 3.0, 10.0, 0.0, 0.0, 0.0)];
    QuietFleetHasNoWarnings(Snapshot(keys, devices, Indoor, HumanMode, sqrt));
  }

  /**
   OUTDOOR: two devices at the same latitude and longitude whose speeds
   differ by 30 are at separation 0, below their positive safe distance, so
   both are flagged with distance 0.00, whatever the control mode and
   the key order.
   */
  lemma OutdoorSameSpotFlagged(sqrt: real -> real, keys: seq<string>, control: real, vA: real, vB: real)
    requires SqrtLaws(sqrt) && ValidControl(control)
    requires keys == ["A", "B"] || keys == ["B", "A"]
    requires 0.0 <= vA && 0.0 <= vB && Abs(vA - vB) == 30.0
    ensures var devices := map["A" := Car("A", vA, 0.0, 0.0, 12.90, 77.50), "B" := Car("B", vB, 5.0, 5.0, 12.90, 77.50)];
      var w := Warnings(Snapshot(keys, devices, Outdoor, control, sqrt));
      "A" in w && "B" in w && w["A"].peer == "B" && w["B"].peer == "A" &&
      w["A"].status == RiskStatus && w["B"].status == RiskStatus &&
      w["A"].distance == 0.0 && w["B"].distance == 0.0
  {
    var a, b := Car("A", vA, 0.0, 0.0, 12.90, 77.50), Car("B", vB, 5.0, 5.0, 12.90, 77.50);
    var snap := Snapshot(keys, map["A" := a, "B" := b], Outdoor, control, sqrt);
    TwoKeyWarnings(snap);
    assert SamePosition(Outdoor, a, b) && SamePosition(Outdoor, b, a);
    DistanceZeroAtSamePosition(Outdoor, a, b, sqrt);
    DistanceZeroAtSamePosition(Outdoor, b, a, sqrt);
    StoppingDistanceFormula(30.0, "CAR", control);
    assert 0.0 < 30.0 * control;
    assert 0.0 < SafeStop(a, b, control);
    Round2Hundredths(0);
    assert Round2(0.0) == 0.0;
  }

  /**
   Three devices at one spot, one moving at 20 and two stationary, with the
   snapshot order A, B, C. The pairs (A, B) and (A, C) are at risk, (B, C) is
   not. A's entry is written for (A, B) and then overwritten for (A, C), so
   B's entry names A while A's entry names C: a flagged pair need not be
   published as a mutually referencing couple.
   */
  lemma OverwriteBreaksSymmetry(sqrt: real -> real)
    requires SqrtLaws(sqrt)
    ensures var a, b, c := Car("A", 20.0, 0.0, 0.0, 0.0, 0.0), Car("B", 0.0, 0.0, 0.0, 0.0, 0.0), Car("C", 0.0, 0.0, 0.0, 0.0, 0.0);
      var snap := Snapshot(["A", "B", "C"], map["A" := a, "B" := b, "C" := c], Indoor, HumanMode, sqrt);
      var w := Warnings(snap);
      AtRisk(snap, a, b) && AtRisk(snap, a, c) &&
      "A" in w && "B" in w && w["B"].peer == "A" && w["A"].peer == "C"
  {
    var a, b, c := Car("A", 20.0, 0.0, 0.0, 0.0, 0.0), Car("B", 0.0, 0.0, 0.0, 0.0, 0.0), Car("C", 0.0, 0.0, 0.0, 0.0, 0.0);
    var snap := Snapshot(["A", "B", "C"], map["A" := a, "B" := b, "C" := c], Indoor, HumanMode, sqrt);
    ThreeKeyPairs();
    DistanceZeroAtSamePosition(Indoor, a, b, sqrt);
    DistanceZeroAtSamePosition(Indoor, a, c, sqrt);
    StoppingDistanceFormula(20.0, "CAR", HumanMode);
    assert AtRisk(snap, a, b) && AtRisk(snap, a, c);
    assert Contribution(snap, (1, 2)) == map[];
    var ab, ac := Contribution(snap, (0, 1)), Contribution(snap, (0, 2));
    assert Warnings(snap) == Run(snap, map[], [(0, 1), (0, 2), (1, 2)]);
    assert [(0, 1), (0, 2), (1, 2)][1..] == [(0, 2), (1, 2)];
    assert [(0, 2), (1, 2)][1..] == [(1, 2)];
    assert Warnings(snap) == ((map[] + ab) + ac) + map[];
  }
}
