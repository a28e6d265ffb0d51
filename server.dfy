/**
 The server's mutable state and the state-changing bodies of its handlers:
 `/api/update` (upsert one device, then recompute), `/api/mode` (apply the
 recognised settings, then recompute) and `/api/clear` (empty the registry
 and the published warnings). Each handler that runs to completion is one
 atomic step; a request that fails partway is not modelled.

 The class invariant `Valid` says that the published warnings are the
 result of a detection pass over the current registry and modes, taken in
 the order of the last key snapshot. Every completed handler keeps it.
 */
module Server {
  import opened Wrappers
  import opened Modes
  import opened Physics
  import opened Detection

  /** The registry after `devices.put(id, record)` with the record stamped at `now`. */
  function Upsert(devices: map<string, Device>, d: Device, now: int): (r: map<string, Device>)
    ensures r.Keys == devices.Keys + {d.id}
    ensures r[d.id] == d.(timestamp := now)
    ensures forall k :: k in devices && k != d.id ==> r[k] == devices[k]
    ensures KeysMatchIds(devices) ==> KeysMatchIds(r)
  {
    devices[d.id := d.(timestamp := now)]
  }

  /**
   Upserting replaces the record wholesale: nothing of the previous record for
   the id survives, not even its timestamp, whatever the two clock readings.
   */
  lemma UpsertReplaces(devices: map<string, Device>, d: Device, e: Device, now: int, now': int)
    requires d.id == e.id
    ensures Upsert(Upsert(devices, d, now), e, now') == Upsert(devices, e, now')
  {
  }

  class CollisionServer {
    /** The registry, keyed by device id. */
    var devices: map<string, Device>
    var systemMode: SystemMode
    /** The reaction-time multiplier of the control mode. */
    var controlMode: real
    /** The last published warnings map. */
    var warnings: map<string, Warning>
    /** The key order the last detection pass saw. */
    ghost var order: seq<string>
    /** `Math.sqrt`. */
    const sqrt: real -> real

    ghost predicate Valid()
      reads this
    {
      SqrtLaws(sqrt) && ValidControl(controlMode) && KeysMatchIds(devices) &&
      KeyOrder(order, devices) &&
      warnings == Warnings(Snapshot(order, devices, systemMode, controlMode, sqrt))
    }

    /** The initial state: an empty registry, INDOOR, HUMAN control, no warnings. */
    constructor(sqrt: real -> real)
      requires SqrtLaws(sqrt)
      ensures Valid()
      ensures devices == map[] && warnings == map[]
      ensures systemMode == Indoor && controlMode == HumanMode
      ensures this.sqrt == sqrt
    {
      this.sqrt := sqrt;
      devices := map[];
      systemMode := Indoor;
      controlMode := HumanMode;
      warnings := map[];
      order := [];
    }

    /** `latestWarnings = detectCollision()`: recompute and publish. */
    method Publish()
      requires SqrtLaws(sqrt) && ValidControl(controlMode) && KeysMatchIds(devices)
      modifies this
      ensures Valid()
      ensures devices == old(devices) && systemMode == old(systemMode) && controlMode == old(controlMode)
    {
      warnings, order := DetectCollision(devices, systemMode, controlMode, sqrt);
    }

    /**
     `/api/update`: the record replaces whatever was stored under its id,
     stamped with the server's clock reading `now`; the warnings are
     recomputed, and the device's own entry, if any, is returned.
     */
    method Update(d: Device, now: int) returns (warning: Option<Warning>)
      requires Valid()
      modifies this
      ensures Valid()
      ensures devices == Upsert(old(devices), d, now)
      ensures systemMode == old(systemMode) && controlMode == old(controlMode)
      ensures warning == if d.id in warnings then Some(warnings[d.id]) else None
    {
      devices := Upsert(devices, d, now);
      Publish();
      if d.id in warnings {
        warning := Some(warnings[d.id]);
      } else {
        warning := None;
      }
    }

    /**
     `/api/mode`: each setting present in the request is applied when its
     upper-cased value is recognised and ignored otherwise; the warnings are
     recomputed and both current mode names are returned.
     */
    method SetModes(systemValue: Option<string>, controlValue: Option<string>)
      returns (systemName: string, controlName: string)
      requires Valid()
      modifies this
      ensures Valid()
      ensures systemMode == NextSystemMode(old(systemMode), systemValue)
      ensures controlMode == NextControlMode(old(controlMode), controlValue)
      ensures devices == old(devices)
      ensures systemName == SystemModeName(systemMode) && controlName == ControlModeName(controlMode)
    {
      systemMode := NextSystemMode(systemMode, systemValue);
      controlMode := NextControlMode(controlMode, controlValue);
      Publish();
      systemName := SystemModeName(systemMode);
      controlName := ControlModeName(controlMode);
    }

    /** `/api/clear`: the registry and the published warnings are emptied, whatever they held. */
    method Clear()
      requires Valid()
      modifies this
      ensures Valid()
      ensures devices == map[] && warnings == map[]
      ensures systemMode == old(systemMode) && controlMode == old(controlMode)
    {
      devices := map[];
      warnings := map[];
      order := [];
    }

    /**
     What a reader of the published map may rely on: every entry is keyed by
     a registered device, has status RISK and names another registered
     device, so there are never more warnings than devices.
     */
    lemma PublishedWellFormed()
      requires Valid()
      ensures forall id :: id in warnings ==>
        id in devices && warnings[id].status == RiskStatus &&
        warnings[id].peer in devices && warnings[id].peer != id
      ensures |warnings| <= |devices|
    {
      WarningsWellFormed(Snapshot(order, devices, systemMode, controlMode, sqrt));
    }

    /**
     Every published entry comes from a flagged pair of the last key snapshot:
     the pair is at risk and the entry names its other side.
     */
    lemma PublishedExplained(id: string)
      requires Valid() && id in warnings
      ensures exists i, j :: Explains(Snapshot(order, devices, systemMode, controlMode, sqrt), i, j, id, warnings[id])
    {
      WarningIsLastFlaggedPair(Snapshot(order, devices, systemMode, controlMode, sqrt), id);
    }

    /** A registry in which every device is below the low-speed threshold publishes no warnings. */
    lemma QuietRegistryPublishesNothing()
      requires Valid()
      requires forall k :: k in devices ==> devices[k].velocity < LowSpeed
      ensures warnings == map[]
    {
      QuietFleetHasNoWarnings(Snapshot(order, devices, systemMode, controlMode, sqrt));
    }
  }
}
