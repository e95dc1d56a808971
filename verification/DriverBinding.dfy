/**
 The driver and device registries of kernel/drv/drv.c. The nested probing loops are proved to
 compute a first-match assignment of drivers to devices.

 What a probe function answers is the function `accepts` of the driver's operations and the device.
 */
module DriverBinding {
  import opened Options

  const MAX_DRIVERS: nat := 16
  const MAX_DEVICES: nat := 32

  /** A driver's operations table: its identity, and whether it has a probe function. */
  datatype Ops = Ops(id: nat, hasProbe: bool)

  datatype Driver = Driver(name: nat, kind: nat, ops: Option<Ops>, registered: bool, probed: bool)

  /** `driver` is the slot of the bound driver, if any. */
  datatype Device = Device(name: nat, kind: nat, driver: Option<nat>, id: nat, active: bool)

  type Probe = (nat, Device) -> bool

  // ----- First match -----

  /** Driver slot `d` would be bound to the device. */
  predicate Matches(drivers: seq<Driver>, accepts: Probe, d: nat, dev: Device) {
    && d < |drivers| && drivers[d].registered && drivers[d].kind == dev.kind
    && drivers[d].ops.Some? && drivers[d].ops.value.hasProbe && accepts(drivers[d].ops.value.id, dev)
  }

  /** The lowest slot below `n` that matches. */
  function FirstMatch(drivers: seq<Driver>, accepts: Probe, dev: Device, n: nat): (r: Option<nat>)
    ensures r.Some? ==> r.value < n && Matches(drivers, accepts, r.value, dev)
    ensures r.Some? ==> forall d: nat :: d < r.value ==> !Matches(drivers, accepts, d, dev)
    ensures r == None ==> forall d: nat :: d < n ==> !Matches(drivers, accepts, d, dev)
  {
    if n == 0 then None
    else
      var r := FirstMatch(drivers, accepts, dev, n - 1);
      if r.Some? then r
      else if Matches(drivers, accepts, n - 1, dev) then Some(n - 1)
      else None
  }

  /** A device after the drivers below `n` have probed it. */
  function Bound(drivers: seq<Driver>, accepts: Probe, dev: Device, n: nat): Device {
    if !dev.active || dev.driver.Some? then dev
    else dev.(driver := FirstMatch(drivers, accepts, dev, n))
  }

  function BoundAll(drivers: seq<Driver>, accepts: Probe, devices: seq<Device>, n: nat): (r: seq<Device>)
    ensures |r| == |devices| && forall i :: 0 <= i < |devices| ==> r[i] == Bound(drivers, accepts, devices[i], n)
  {
    seq(|devices|, i requires 0 <= i < |devices| => Bound(drivers, accepts, devices[i], n))
  }

  /** How many devices without a driver have one afterwards. */
  function NewlyBound(before: seq<Device>, after: seq<Device>): nat
    requires |before| == |after|
  {
    if before == [] then 0
    else NewlyBound(before[..|before| - 1], after[..|before| - 1])
         + (if before[|before| - 1].driver.None? && after[|before| - 1].driver.Some? then 1 else 0)
  }

  /** Binding never takes a driver away, and binds exactly the lowest matching slot. */
  lemma BindingIsFirstMatch(drivers: seq<Driver>, accepts: Probe, dev: Device)
    ensures var b := Bound(drivers, accepts, dev, |drivers|);
            && (dev.driver.Some? ==> b == dev)
            && (dev.active && dev.driver.None? ==>
                 forall d: nat :: b.driver == Some(d) <==>
                   Matches(drivers, accepts, d, dev) && forall e: nat :: e < d ==> !Matches(drivers, accepts, e, dev))
            && (!dev.active ==> b == dev)
  {
  }

  /**
   What binding means, field by field: an active device without a driver gets slot `d` exactly when the
   driver there is registered, of the device's type, with an operations table and a probe that accepts
   the device, and no lower slot is so; it stays without one exactly when no slot is so.
   */
  lemma BindingMeans(drivers: seq<Driver>, accepts: Probe, dev: Device)
    requires dev.active && dev.driver == None
    ensures var b := Bound(drivers, accepts, dev, |drivers|);
            && b == dev.(driver := b.driver)
            && (b.driver.Some? ==>
                  && b.driver.value < |drivers|
                  && var drv := drivers[b.driver.value];
                     drv.registered && drv.kind == dev.kind && drv.ops.Some? && drv.ops.value.hasProbe
                     && accepts(drv.ops.value.id, dev))
            && (forall e :: 0 <= e < |drivers| && (b.driver.Some? ==> e < b.driver.value) ==>
                  var drv := drivers[e];
                  !(drv.registered && drv.kind == dev.kind && drv.ops.Some? && drv.ops.value.hasProbe
                    && accepts(drv.ops.value.id, dev)))
  {
    var b := Bound(drivers, accepts, dev, |drivers|);
    forall e | 0 <= e < |drivers| && (b.driver.Some? ==> e < b.driver.value)
      ensures var drv := drivers[e];
              !(drv.registered && drv.kind == dev.kind && drv.ops.Some? && drv.ops.value.hasProbe
                && accepts(drv.ops.value.id, dev))
    {
      assert !Matches(drivers, accepts, e, dev);
    }
  }

  /** What binding all devices means, device by device. */
  lemma BoundMeans(drivers: seq<Driver>, accepts: Probe, devices: seq<Device>, after: seq<Device>)
    requires after == BoundAll(drivers, accepts, devices, |drivers|)
    ensures |after| == |devices|
    ensures forall i :: 0 <= i < |devices| ==>
              && after[i] == devices[i].(driver := after[i].driver)
              && (!after[i].active || devices[i].driver.Some? ==> after[i] == devices[i])
    ensures forall i, d :: 0 <= i < |devices| && devices[i].driver == None && after[i].driver == Some(d) ==>
              && d < |drivers|
              && var drv := drivers[d];
                 drv.registered && drv.kind == devices[i].kind && drv.ops.Some? && drv.ops.value.hasProbe
                 && accepts(drv.ops.value.id, devices[i])
    ensures forall i, e :: 0 <= i < |devices| && after[i].active && devices[i].driver == None
                           && 0 <= e < |drivers| && (after[i].driver.Some? ==> e < after[i].driver.value) ==>
              var drv := drivers[e];
              !(drv.registered && drv.kind == devices[i].kind && drv.ops.Some? && drv.ops.value.hasProbe
                && accepts(drv.ops.value.id, devices[i]))
  {
    hide Matches, FirstMatch;
    forall i | 0 <= i < |devices| && devices[i].active && devices[i].driver == None
      ensures after[i] == Bound(drivers, accepts, devices[i], |drivers|)
    {
      BindingMeans(drivers, accepts, devices[i]);
    }
    forall i, e | 0 <= i < |devices| && after[i].active && devices[i].driver == None
                  && 0 <= e < |drivers| && (after[i].driver.Some? ==> e < after[i].driver.value)
      ensures var drv := drivers[e];
              !(drv.registered && drv.kind == devices[i].kind && drv.ops.Some? && drv.ops.value.hasProbe
                && accepts(drv.ops.value.id, devices[i]))
    {
      BindingMeans(drivers, accepts, devices[i]);
    }
    forall i, d | 0 <= i < |devices| && devices[i].driver == None && after[i].driver == Some(d)
      ensures d < |drivers|
      ensures var drv := drivers[d];
              drv.registered && drv.kind == devices[i].kind && drv.ops.Some? && drv.ops.value.hasProbe
              && accepts(drv.ops.value.id, devices[i])
    {
      BindingMeans(drivers, accepts, devices[i]);
    }
  }

  /** Some device that had no driver is bound to slot `d`. */
  ghost predicate GotDevice(before: seq<Device>, after: seq<Device>, d: nat)
    requires |before| == |after|
  {
    exists i :: 0 <= i < |before| && before[i].driver == None && after[i].driver == Some(d)
  }

  /** Nothing but the probing flags of drivers has changed: those that got a device are marked. */
  ghost predicate ProbedMarks(drivers: seq<Driver>, drivers2: seq<Driver>, devices: seq<Device>, devices2: seq<Device>)
    requires |devices| == |devices2|
  {
    && SameDrivers(drivers, drivers2)
    && forall d :: 0 <= d < |drivers| ==> (drivers2[d].probed <==> drivers[d].probed || GotDevice(devices, devices2, d))
  }

  lemma SameSlot(drivers: seq<Driver>, drivers2: seq<Driver>, devices: seq<Device>, devices2: seq<Device>, d: nat)
    requires |devices| == |devices2| && ProbedMarks(drivers, drivers2, devices, devices2)
    requires d < |drivers| == |drivers2|
    ensures drivers2[d].(probed := false) == drivers[d].(probed := false)
  {
  }

  lemma MarksMean(drivers: seq<Driver>, drivers2: seq<Driver>, devices: seq<Device>, devices2: seq<Device>)
    requires |devices| == |devices2| && ProbedMarks(drivers, drivers2, devices, devices2)
    ensures SameDrivers(drivers, drivers2)
    ensures forall d :: 0 <= d < |drivers| ==>
              (drivers2[d].probed <==> drivers[d].probed || GotDevice(devices, devices2, d))
  {
  }

  lemma NothingMarked(drivers: seq<Driver>, devices: seq<Device>)
    ensures ProbedMarks(drivers, drivers, devices, devices)
  {
  }

  lemma MarkProbed(drivers: seq<Driver>, drivers2: seq<Driver>, devices: seq<Device>, devices2: seq<Device>,
                   i: nat, d: nat)
    requires |devices| == |devices2| && ProbedMarks(drivers, drivers2, devices, devices2)
    requires i < |devices| && devices[i].driver == None && devices2[i].driver == None && d < |drivers| == |drivers2|
    ensures ProbedMarks(drivers, drivers2[d := drivers2[d].(probed := true)],
                        devices, devices2[i := devices2[i].(driver := Some(d))])
  {
    var after := devices2[i := devices2[i].(driver := Some(d))];
    assert after[i].driver == Some(d);
    forall e: nat | e < |drivers|
      ensures GotDevice(devices, after, e) <==> e == d || GotDevice(devices, devices2, e)
    {
      if GotDevice(devices, devices2, e) {
        var j :| 0 <= j < |devices| && devices[j].driver == None && devices2[j].driver == Some(e);
        assert after[j].driver == Some(e);
      }
      if GotDevice(devices, after, e) && e != d {
        var j :| 0 <= j < |devices| && devices[j].driver == None && after[j].driver == Some(e);
        assert devices2[j].driver == Some(e);
      }
    }
  }

  /** The count is the number of devices that had no driver and have one. */
  lemma {:induction false} NewlyBoundIs(before: seq<Device>, after: seq<Device>)
    requires |before| == |after|
    ensures NewlyBound(before, after) ==
            |set i: nat | i < |before| && before[i].driver == None && after[i].driver != None|
  {
    if before != [] {
      var n := |before| - 1;
      NewlyBoundIs(before[..n], after[..n]);
      NewSetStep(before, after);
    }
  }

  lemma NewSetStep(before: seq<Device>, after: seq<Device>)
    requires |before| == |after| && before != []
    ensures var n := |before| - 1;
            var all := set i: nat | i < |before| && before[i].driver == None && after[i].driver != None;
            var rest := set i: nat | i < |before[..n]| && before[..n][i].driver == None && after[..n][i].driver != None;
            |all| == |rest| + (if before[n].driver == None && after[n].driver != None then 1 else 0)
  {
    var n := |before| - 1;
    var all := set i: nat | i < |before| && before[i].driver == None && after[i].driver != None;
    var rest := set i: nat | i < |before[..n]| && before[..n][i].driver == None && after[..n][i].driver != None;
    assert n !in rest;
    if before[n].driver == None && after[n].driver != None {
      assert all == rest + {n};
    } else {
      assert all == rest;
    }
  }

  /** Probing a second time changes nothing and binds nothing. */
  lemma {:induction false} BindingIdempotent(drivers: seq<Driver>, accepts: Probe, devices: seq<Device>)
    ensures var once := BoundAll(drivers, accepts, devices, |drivers|);
            && BoundAll(drivers, accepts, once, |drivers|) == once
            && NewlyBound(once, BoundAll(drivers, accepts, once, |drivers|)) == 0
  {
    var n := |drivers|;
    var once := BoundAll(drivers, accepts, devices, n);
    forall i | 0 <= i < |devices|
      ensures BoundAll(drivers, accepts, once, n)[i] == once[i]
    {
      var dev := devices[i];
      if dev.active && dev.driver.None? && FirstMatch(drivers, accepts, dev, n).None? {
        assert once[i] == dev;
      }
    }
    NothingNew(once);
  }

  lemma {:induction false} NothingNew(devices: seq<Device>)
    ensures NewlyBound(devices, devices) == 0
  {
    if devices != [] {
      NothingNew(devices[..|devices| - 1]);
    }
  }

  /** Binding one more device adds one to the count. */
  lemma {:induction false} OneMoreBound(before: seq<Device>, after: seq<Device>, i: nat, d: nat)
    requires |before| == |after| && i < |before|
    requires before[i].driver.None? && after[i].driver.None?
    ensures NewlyBound(before, after[i := after[i].(driver := Some(d))]) == NewlyBound(before, after) + 1
  {
    var n := |before| - 1;
    var updated := after[i := after[i].(driver := Some(d))];
    if i < n {
      OneMoreBound(before[..n], after[..n], i, d);
      assert updated[..n] == after[..n][i := after[i].(driver := Some(d))];
    } else {
      assert updated[..n] == after[..n];
    }
  }

  /** The registered drivers are the same but for their probing flags. */
  ghost predicate SameDrivers(drivers: seq<Driver>, drivers2: seq<Driver>) {
    && |drivers| == |drivers2|
    && forall d :: 0 <= d < |drivers| ==> drivers[d].(probed := false) == drivers2[d].(probed := false)
  }

  lemma {:induction false} SameFirstMatch(drivers: seq<Driver>, drivers2: seq<Driver>,
                                          accepts: Probe, dev: Device, n: nat)
    requires SameDrivers(drivers, drivers2)
    ensures FirstMatch(drivers, accepts, dev, n) == FirstMatch(drivers2, accepts, dev, n)
  {
    if n > 0 {
      SameFirstMatch(drivers, drivers2, accepts, dev, n - 1);
      if n <= |drivers| {
        assert drivers[n - 1].(probed := false) == drivers2[n - 1].(probed := false);
      }
    }
  }

  /** Probing again, with the flags that the first pass left, changes no device and counts none. */
  lemma SecondPassBindsNothing(drivers: seq<Driver>, drivers2: seq<Driver>, accepts: Probe, devices: seq<Device>)
    requires SameDrivers(drivers, drivers2)
    ensures var once := BoundAll(drivers, accepts, devices, |drivers|);
            var twice := BoundAll(drivers2, accepts, once, |drivers2|);
            twice == once && NewlyBound(once, twice) == 0
  {
    BindingIdempotent(drivers, accepts, devices);
    var once := BoundAll(drivers, accepts, devices, |drivers|);
    forall i | 0 <= i < |once|
      ensures Bound(drivers2, accepts, once[i], |drivers2|) == Bound(drivers, accepts, once[i], |drivers|)
    {
      SameFirstMatch(drivers, drivers2, accepts, once[i], |drivers|);
    }
    assert BoundAll(drivers2, accepts, once, |drivers2|) == BoundAll(drivers, accepts, once, |drivers|);
  }

  // ----- The registries -----

  class Registry {
    const drivers: array<Driver>
    const devices: array<Device>
    const accepts: Probe
    var driverCount: int
    var deviceCount: int

    ghost predicate Valid()
      reads this, drivers, devices
    {
      drivers.Length == MAX_DRIVERS && devices.Length == MAX_DEVICES && drivers as object != devices as object
    }

    constructor (probe: Probe)
      ensures Valid() && accepts == probe && driverCount == 0 && deviceCount == 0
      ensures forall d :: 0 <= d < MAX_DRIVERS ==> !drivers[d].registered
      ensures forall i :: 0 <= i < MAX_DEVICES ==> !devices[i].active
      ensures fresh(drivers) && fresh(devices)
    {
      drivers := new Driver[MAX_DRIVERS](_ => Driver(0, 0, None, false, false));
      devices := new Device[MAX_DEVICES](_ => Device(0, 0, None, 0, false));
      accepts := probe;
      driverCount, deviceCount := 0, 0;
    }

    /** `drv_register`: the record goes to the first unused slot; nothing changes on failure. */
    method DrvRegister(drv: Option<Driver>) returns (r: int, ghost slot: nat)
      requires Valid()
      modifies this`driverCount, drivers
      ensures Valid()
      ensures r == 0 <==> drv.Some? && drv.value.ops.Some? && old(driverCount) < MAX_DRIVERS
                          && exists d :: 0 <= d < MAX_DRIVERS && !old(drivers[d].registered)
      ensures r == 0 || r == -1
      ensures r == 0 ==>
                && slot < MAX_DRIVERS && !old(drivers[slot].registered)
                && (forall d :: 0 <= d < slot ==> old(drivers[d].registered))
                && drivers[..] == old(drivers[..])[slot := drv.value.(registered := true)]
                && driverCount == old(driverCount) + 1
      ensures r == -1 ==> drivers[..] == old(drivers[..]) && driverCount == old(driverCount)
    {
      slot := 0;
      if drv.None? || drv.value.ops.None? {
        return -1, slot;
      }
      if driverCount >= MAX_DRIVERS {
        return -1, slot;
      }
      var i := 0;
      while i < MAX_DRIVERS
        invariant 0 <= i <= MAX_DRIVERS
        invariant forall d :: 0 <= d < i ==> drivers[d].registered
      {
        if !drivers[i].registered {
          break;
        }
        i := i + 1;
      }
      if i >= MAX_DRIVERS {
        return -1, slot;
      }
      drivers[i] := drv.value.(registered := true);
      driverCount := driverCount + 1;
      return 0, i;
    }

    /** `dev_register`: a device without an id gets its slot number plus one, also in the caller's record. */
    method DevRegister(dev: Option<Device>) returns (r: int, stored: Option<Device>, ghost slot: nat)
      requires Valid()
      modifies this`deviceCount, devices
      ensures Valid()
      ensures r == 0 <==> dev.Some? && old(deviceCount) < MAX_DEVICES
                          && exists i :: 0 <= i < MAX_DEVICES && !old(devices[i].active)
      ensures r == 0 || r == -1
      ensures r == 0 ==>
                && slot < MAX_DEVICES && !old(devices[slot].active)
                && (forall i :: 0 <= i < slot ==> old(devices[i].active))
                && stored == Some(if dev.value.id == 0 then dev.value.(id := slot + 1) else dev.value)
                && devices[..] == old(devices[..])[slot := stored.value.(active := true)]
                && deviceCount == old(deviceCount) + 1
      ensures r == -1 ==> stored == dev && devices[..] == old(devices[..]) && deviceCount == old(deviceCount)
    {
      slot := 0;
      stored := dev;
      if dev.None? {
        return -1, stored, slot;
      }
      if deviceCount >= MAX_DEVICES {
        return -1, stored, slot;
      }
      var i := 0;
      while i < MAX_DEVICES
        invariant 0 <= i <= MAX_DEVICES
        invariant forall j :: 0 <= j < i ==> devices[j].active
      {
        if !devices[i].active {
          break;
        }
        i := i + 1;
      }
      if i >= MAX_DEVICES {
        return -1, stored, slot;
      }
      if dev.value.id == 0 {
        stored := Some(dev.value.(id := i + 1));
      }
      devices[i] := stored.value.(active := true);
      deviceCount := deviceCount + 1;
      return 0, stored, i;
    }

    /**
     `drv_probe_all`: every active device without a driver gets the lowest slot whose driver is
     registered, of the device's type, and has a probe that accepts the device, and stays without one
     when there is none. The result counts the new bindings; the drivers bound are marked as probed.
     */
    method DrvProbeAll() returns (count: int)
      requires Valid()
      modifies drivers, devices
      ensures Valid()
      ensures devices[..] == BoundAll(old(drivers[..]), accepts, old(devices[..]), MAX_DRIVERS)
      ensures count == NewlyBound(old(devices[..]), devices[..])
      ensures count == |set i: nat | i < 32 && old(devices[..])[i].driver == None && devices[..][i].driver != None|
      ensures forall i :: 0 <= i < 32 ==>
                && devices[i] == old(devices[..])[i].(driver := devices[i].driver)
                && (!devices[i].active || old(devices[..])[i].driver.Some? ==> devices[i] == old(devices[..])[i])
      ensures forall i, d :: 0 <= i < 32 && old(devices[..])[i].driver == None && devices[i].driver == Some(d) ==>
                && d < 16
                && var drv := old(drivers[..])[d];
                   drv.registered && drv.kind == devices[i].kind && drv.ops.Some? && drv.ops.value.hasProbe
                   && accepts(drv.ops.value.id, old(devices[..])[i])
      ensures forall i, e :: 0 <= i < 32 && devices[i].active && old(devices[..])[i].driver == None
                             && 0 <= e < 16 && (devices[i].driver.Some? ==> e < devices[i].driver.value) ==>
                var drv := old(drivers[..])[e];
                !(drv.registered && drv.kind == devices[i].kind && drv.ops.Some? && drv.ops.value.hasProbe
                  && accepts(drv.ops.value.id, old(devices[..])[i]))
      ensures SameDrivers(old(drivers[..]), drivers[..])
      ensures forall d :: 0 <= d < 16 ==>
                (drivers[d].probed <==>
                 || old(drivers[..])[d].probed
                 || exists i :: 0 <= i < 32 && old(devices[..])[i].driver == None && devices[..][i].driver == Some(d))
    {
      count := ProbeLoops();
      BoundMeans(old(drivers[..]), accepts, old(devices[..]), devices[..]);
      NewlyBoundIs(old(devices[..]), devices[..]);
    }

    /** The nested loops. */
    method ProbeLoops() returns (count: int)
      requires Valid()
      modifies drivers, devices
      ensures Valid()
      ensures devices[..] == BoundAll(old(drivers[..]), accepts, old(devices[..]), MAX_DRIVERS)
      ensures count == NewlyBound(old(devices[..]), devices[..])
      ensures SameDrivers(old(drivers[..]), drivers[..])
      ensures forall d :: 0 <= d < MAX_DRIVERS ==>
                (drivers[d].probed <==> old(drivers[..])[d].probed || GotDevice(old(devices[..]), devices[..], d))
    {
      hide NewlyBound, GotDevice, ProbedMarks;
      count := 0;
      ghost var drv0, dev0 := drivers[..], devices[..];
      NothingNew(dev0);
      NothingMarked(drv0, dev0);
      assert devices[..] == BoundAll(drv0, accepts, dev0, 0);
      var d := 0;
      while d < MAX_DRIVERS
        invariant 0 <= d <= MAX_DRIVERS
        invariant devices[..] == BoundAll(drv0, accepts, dev0, d)
        invariant count == NewlyBound(dev0, devices[..])
        invariant ProbedMarks(drv0, drivers[..], dev0, devices[..])
      {
        SameSlot(drv0, drivers[..], dev0, devices[..], d);
        if drivers[d].registered {
          var i := 0;
          while i < MAX_DEVICES
            invariant 0 <= i <= MAX_DEVICES
            invariant forall j :: 0 <= j < i ==> devices[j] == Bound(drv0, accepts, dev0[j], d + 1)
            invariant forall j :: i <= j < MAX_DEVICES ==> devices[j] == Bound(drv0, accepts, dev0[j], d)
            invariant count == NewlyBound(dev0, devices[..])
            invariant ProbedMarks(drv0, drivers[..], dev0, devices[..])
          {
            SameSlot(drv0, drivers[..], dev0, devices[..], d);
            if devices[i].active && devices[i].kind == drivers[d].kind && devices[i].driver.None? {
              if drivers[d].ops.Some? && drivers[d].ops.value.hasProbe {
                if accepts(drivers[d].ops.value.id, devices[i]) {
                  OneMoreBound(dev0, devices[..], i, d);
                  MarkProbed(drv0, drivers[..], dev0, devices[..], i, d);
                  ghost var before, marks := devices[..], drivers[..];
                  devices[i] := devices[i].(driver := Some(d));
                  assert devices[..] == before[i := before[i].(driver := Some(d))];
                  drivers[d] := drivers[d].(probed := true);
                  assert drivers[..] == marks[d := marks[d].(probed := true)];
                  count := count + 1;
                }
              }
            }
            i := i + 1;
          }
        }
        d := d + 1;
        assert devices[..] == BoundAll(drv0, accepts, dev0, d);
      }
      MarksMean(drv0, drivers[..], dev0, devices[..]);
    }
  }
}
