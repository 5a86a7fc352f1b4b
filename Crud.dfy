/** The store operations of the ledger. The read-only queries are functions
    over the two tables; `Store` holds the tables and performs the three
    writes (register a vehicle, open a stay, close a stay). Each write is
    one committed change. */
module Crud {
  import opened Models
  import opened Sorting

  /** The unique constraint on `plate_number` rejected an insert. */
  datatype StoreError = PlateTaken

  // ---------------------------------------------------------------------
  // Queries

  /** The first vehicle row with exactly this plate. */
  function VehicleByPlate(vs: seq<Vehicle>, plate: string): (r: Option<Vehicle>)
    ensures r.Some? ==> r.value in vs && r.value.plate == plate
    ensures r.None? <==> forall v :: v in vs ==> v.plate != plate
  {
    if vs == [] then None
    else if vs[0].plate == plate then Some(vs[0])
    else VehicleByPlate(vs[1..], plate)
  }

  /** The first vehicle row with this id. */
  function VehicleById(vs: seq<Vehicle>, vehicleId: int): (r: Option<Vehicle>)
    ensures r.Some? ==> r.value in vs && r.value.id == vehicleId
    ensures r.None? <==> forall v :: v in vs ==> v.id != vehicleId
  {
    if vs == [] then None
    else if vs[0].id == vehicleId then Some(vs[0])
    else VehicleById(vs[1..], vehicleId)
  }

  /** With row ids, an id lookup finds the row at that position, and no row
      for an id outside the table. */
  lemma IdLookupIsRow(vs: seq<Vehicle>, vehicleId: int)
    requires VehicleRowIds(vs)
    ensures 1 <= vehicleId <= |vs| ==> VehicleById(vs, vehicleId) == Some(vs[vehicleId - 1])
    ensures !(1 <= vehicleId <= |vs|) ==> VehicleById(vs, vehicleId) == None
  {
  }

  /** With unique plates, a plate lookup finds the one vehicle carrying it. */
  lemma PlateLookupIsExact(vs: seq<Vehicle>, v: Vehicle)
    requires UniquePlates(vs)
    requires v in vs
    ensures VehicleByPlate(vs, v.plate) == Some(v)
  {
  }

  /** Index of the first open log of a vehicle (`exited_at IS NULL`). */
  function OpenLogIndex(logs: seq<ParkingLog>, vehicleId: int): (r: Option<nat>)
    ensures r.Some? ==> r.value < |logs| && logs[r.value].vehicleId == vehicleId && IsOpen(logs[r.value])
    ensures r.None? <==> !HasOpenLog(logs, vehicleId)
  {
    if logs == [] then None
    else if logs[0].vehicleId == vehicleId && IsOpen(logs[0]) then Some(0)
    else
      var rest := OpenLogIndex(logs[1..], vehicleId);
      assert HasOpenLog(logs, vehicleId) ==> HasOpenLog(logs[1..], vehicleId) by {
        if HasOpenLog(logs, vehicleId) {
          var i :| 0 <= i < |logs| && logs[i].vehicleId == vehicleId && IsOpen(logs[i]);
          assert logs[1..][i - 1] == logs[i];
        }
      }
      match rest
      case None => None
      case Some(i) => Some(i + 1)
  }

  /** A vehicle's open log, when it has one, is the only one. */
  lemma OpenLogIsOnly(logs: seq<ParkingLog>, vehicleId: int, j: nat)
    requires AtMostOneOpen(logs)
    requires j < |logs| && logs[j].vehicleId == vehicleId && IsOpen(logs[j])
    ensures OpenLogIndex(logs, vehicleId) == Some(j)
  {
  }

  /** Number of open logs: the cars currently in the lot. */
  function OpenCount(logs: seq<ParkingLog>): (n: nat)
    ensures n <= |logs|
    ensures n == 0 <==> forall i :: 0 <= i < |logs| ==> !IsOpen(logs[i])
  {
    if logs == [] then 0
    else
      assert forall i :: 1 <= i < |logs| ==> logs[i] == logs[1..][i - 1];
      (if IsOpen(logs[0]) then 1 else 0) + OpenCount(logs[1..])
  }

  /** The join of one log with the vehicle rows it refers to. */
  function Joined(vs: seq<Vehicle>, log: ParkingLog): (r: seq<(Vehicle, ParkingLog)>)
    ensures forall p :: p in r <==> p.0 in vs && p.1 == log && p.0.id == log.vehicleId
  {
    if vs == [] then []
    else (if vs[0].id == log.vehicleId then [(vs[0], log)] else []) + Joined(vs[1..], log)
  }

  /** `get_all_parked_vehicles`: vehicles joined to their logs, keeping the
      open logs only, in log order. */
  function ParkedPairs(vs: seq<Vehicle>, logs: seq<ParkingLog>): (r: seq<(Vehicle, ParkingLog)>)
    ensures forall p :: p in r <==> p.0 in vs && p.1 in logs && p.1.vehicleId == p.0.id && IsOpen(p.1)
  {
    if logs == [] then []
    else
      assert forall l :: l in logs <==> l == logs[0] || l in logs[1..];
      (if IsOpen(logs[0]) then Joined(vs, logs[0]) else []) + ParkedPairs(vs, logs[1..])
  }

  /** The join is empty when no row has the referenced id. */
  lemma {:induction false} JoinedNone(vs: seq<Vehicle>, log: ParkingLog)
    requires forall v :: v in vs ==> v.id != log.vehicleId
    ensures Joined(vs, log) == []
  {
    if vs != [] {
      assert vs[0] in vs;
      JoinedNone(vs[1..], log);
    }
  }

  /** The join matches exactly one row when the referenced id exists once. */
  lemma {:induction false} JoinedOnce(vs: seq<Vehicle>, log: ParkingLog)
    requires UniqueVehicleIds(vs)
    requires HasVehicle(vs, log.vehicleId)
    ensures |Joined(vs, log)| == 1
  {
    if vs[0].id == log.vehicleId {
      forall v | v in vs[1..] ensures v.id != log.vehicleId {
        var k :| 0 <= k < |vs[1..]| && vs[1..][k] == v;
        assert vs[k + 1] == v;
      }
      JoinedNone(vs[1..], log);
    } else {
      var k :| 0 <= k < |vs| && vs[k].id == log.vehicleId;
      assert vs[1..][k - 1].id == log.vehicleId;
      assert UniqueVehicleIds(vs[1..]) by {
        forall i, j | 0 <= i < j < |vs[1..]| ensures vs[1..][i].id != vs[1..][j].id {
          assert vs[1..][i] == vs[i + 1] && vs[1..][j] == vs[j + 1];
        }
      }
      JoinedOnce(vs[1..], log);
    }
  }

  /** In a consistent store every open log yields exactly one parked pair. */
  lemma {:induction false} ParkedPairsCount(vs: seq<Vehicle>, logs: seq<ParkingLog>)
    requires UniqueVehicleIds(vs)
    requires LogsReferToVehicles(vs, logs)
    ensures |ParkedPairs(vs, logs)| == OpenCount(logs)
  {
    if logs != [] {
      assert LogsReferToVehicles(vs, logs[1..]) by {
        forall i | 0 <= i < |logs[1..]| ensures HasVehicle(vs, logs[1..][i].vehicleId) {
          assert logs[1..][i] == logs[i + 1];
        }
      }
      ParkedPairsCount(vs, logs[1..]);
      if IsOpen(logs[0]) {
        assert HasVehicle(vs, logs[0].vehicleId);
        JoinedOnce(vs, logs[0]);
      }
    }
  }

  /** Sort key of `ORDER BY entered_at`. */
  function EnteredKey(log: ParkingLog): real {
    log.enteredAt as real
  }

  /** `get_all_logs`: at most `limit` logs (50 unless given), newest entry
      first. What it leaves out entered no later than anything it returns. */
  function RecentLogs(logs: seq<ParkingLog>, limit: nat := 50): (r: seq<ParkingLog>)
    ensures |r| == if limit < |logs| then limit else |logs|
    ensures SortedDesc(r, EnteredKey)
    ensures multiset(r) <= multiset(logs)
    ensures forall i, l :: 0 <= i < |r| && l in multiset(logs) - multiset(r) ==> l.enteredAt <= r[i].enteredAt
  {
    var sorted := SortDesc(logs, EnteredKey);
    PrefixHoldsLargest(sorted, limit, EnteredKey);
    Take(sorted, limit)
  }

  /** Without an explicit limit, the 50 newest logs are returned, or all of
      them when there are fewer. */
  lemma DefaultLimit(logs: seq<ParkingLog>)
    ensures |RecentLogs(logs)| == if |logs| < 50 then |logs| else 50
  {
  }

  /** The logs of one vehicle, in table order. */
  function LogsOf(logs: seq<ParkingLog>, vehicleId: int): (r: seq<ParkingLog>)
    ensures forall l :: l in r <==> l in logs && l.vehicleId == vehicleId
    ensures |r| <= |logs|
  {
    if logs == [] then []
    else
      assert forall l :: l in logs <==> l == logs[0] || l in logs[1..];
      (if logs[0].vehicleId == vehicleId then [logs[0]] else []) + LogsOf(logs[1..], vehicleId)
  }

  /** `get_vehicle_logs`: all logs of one vehicle, newest entry first. */
  function VehicleLogs(logs: seq<ParkingLog>, vehicleId: int): (r: seq<ParkingLog>)
    ensures SortedDesc(r, EnteredKey)
    ensures multiset(r) == multiset(LogsOf(logs, vehicleId))
    ensures forall l :: l in r <==> l in logs && l.vehicleId == vehicleId
  {
    var r := SortDesc(LogsOf(logs, vehicleId), EnteredKey);
    assert forall l :: l in r <==> l in multiset(LogsOf(logs, vehicleId));
    r
  }

  // ---------------------------------------------------------------------
  // Writes

  /** Appending an open log for a registered vehicle without an open log
      keeps the store consistent, and leaves that vehicle parked. */
  lemma AppendOpenLogKeepsConsistent(vs: seq<Vehicle>, logs: seq<ParkingLog>, log: ParkingLog)
    requires Consistent(vs, logs)
    requires HasVehicle(vs, log.vehicleId) && !HasOpenLog(logs, log.vehicleId)
    requires log == ParkingLog(|logs| + 1, log.vehicleId, log.enteredAt, None)
    ensures Consistent(vs, logs + [log])
    ensures HasOpenLog(logs + [log], log.vehicleId)
  {
    var logs' := logs + [log];
    assert logs'[|logs|] == log;
    forall i, j | 0 <= i < j < |logs'| && IsOpen(logs'[i]) && IsOpen(logs'[j])
      ensures logs'[i].vehicleId != logs'[j].vehicleId
    {
      if j == |logs| {
        assert logs'[i] == logs[i];
      }
    }
  }

  /** Closing a vehicle's open log keeps the store consistent and leaves the
      vehicle with no open log. */
  lemma CloseLogKeepsConsistent(vs: seq<Vehicle>, logs: seq<ParkingLog>, i: nat, now: Time)
    requires Consistent(vs, logs)
    requires i < |logs| && IsOpen(logs[i])
    ensures var logs' := logs[i := logs[i].(exitedAt := Some(now))];
      Consistent(vs, logs') && !HasOpenLog(logs', logs[i].vehicleId)
  {
  }

  /** Adding a vehicle with a fresh plate and the next row id keeps the store
      consistent. */
  lemma AppendVehicleKeepsConsistent(vs: seq<Vehicle>, logs: seq<ParkingLog>, v: Vehicle)
    requires Consistent(vs, logs)
    requires v.id == |vs| + 1
    requires forall w :: w in vs ==> w.plate != v.plate
    ensures Consistent(vs + [v], logs)
  {
    var vs' := vs + [v];
    assert VehicleRowIds(vs');
    forall i | 0 <= i < |logs| ensures HasVehicle(vs', logs[i].vehicleId) {
      HasVehicleIsRow(vs, logs[i].vehicleId);
      HasVehicleIsRow(vs', logs[i].vehicleId);
    }
    forall i, j | 0 <= i < j < |vs'| ensures vs'[i].plate != vs'[j].plate {
      if j == |vs| {
        assert vs'[i] in vs;
      }
    }
  }

  /** The two tables. */
  class Store {
    var vehicles: seq<Vehicle>
    var logs: seq<ParkingLog>

    ghost predicate Valid()
      reads this
    {
      Consistent(vehicles, logs)
    }

    constructor ()
      ensures Valid()
      ensures vehicles == [] && logs == []
    {
      vehicles := [];
      logs := [];
    }

    /** `get_all_vehicles`: every row, plates all distinct. */
    function AllVehicles(): (r: seq<Vehicle>)
      reads this
      requires Valid()
      ensures UniquePlates(r) && UniqueVehicleIds(r)
      ensures forall v :: v in r <==> v in vehicles
    {
      ConsistentKeysUnique(vehicles, logs);
      vehicles
    }

    /** `create_vehicle`: inserts a row for `plate` with the next id and
        `is_allowed` at its default, true. A plate already present violates
        the unique constraint and nothing is written. */
    method CreateVehicle(plate: string) returns (r: Result<Vehicle, StoreError>)
      requires Valid()
      modifies this
      ensures Valid()
      ensures logs == old(logs)
      ensures old(VehicleByPlate(vehicles, plate)).Some? ==>
        r == Failure(PlateTaken) && vehicles == old(vehicles)
      ensures old(VehicleByPlate(vehicles, plate)).None? ==>
        r == Success(Vehicle(|old(vehicles)| + 1, plate, true)) && vehicles == old(vehicles) + [r.value]
      ensures r.Success? ==> VehicleByPlate(vehicles, plate) == Some(r.value)
    {
      if VehicleByPlate(vehicles, plate).Some? {
        return Failure(PlateTaken);
      }
      var v := Vehicle(|vehicles| + 1, plate, true);
      AppendVehicleKeepsConsistent(vehicles, logs, v);
      vehicles := vehicles + [v];
      PlateLookupIsExact(vehicles, v);
      r := Success(v);
    }

    /** `vehicle_enter`: refuses when the vehicle already has an open log;
        otherwise appends one entered at `now`. Either way the vehicle is
        parked afterwards. */
    method VehicleEnter(vehicle: Vehicle, now: Time) returns (log: Option<ParkingLog>)
      requires Valid()
      requires vehicle in vehicles
      modifies this
      ensures Valid()
      ensures vehicles == old(vehicles)
      ensures old(HasOpenLog(logs, vehicle.id)) ==> log.None? && logs == old(logs)
      ensures !old(HasOpenLog(logs, vehicle.id)) ==>
        log == Some(ParkingLog(|old(logs)| + 1, vehicle.id, now, None)) && logs == old(logs) + [log.value]
      ensures HasOpenLog(logs, vehicle.id)
    {
      var active := OpenLogIndex(logs, vehicle.id);
      if active.Some? {
        return None;
      }
      var entry := ParkingLog(|logs| + 1, vehicle.id, now, None);
      assert HasVehicle(vehicles, vehicle.id);
      AppendOpenLogKeepsConsistent(vehicles, logs, entry);
      logs := logs + [entry];
      log := Some(entry);
    }

    /** `vehicle_exit`: stamps `now` as the exit time of the vehicle's open
        log and changes nothing else; without an open log it changes
        nothing. Either way the vehicle is not parked afterwards. */
    method VehicleExit(vehicle: Vehicle, now: Time) returns (log: Option<ParkingLog>)
      requires Valid()
      modifies this
      ensures Valid()
      ensures vehicles == old(vehicles)
      ensures old(OpenLogIndex(logs, vehicle.id)).None? ==> log.None? && logs == old(logs)
      ensures old(OpenLogIndex(logs, vehicle.id)).Some? ==>
        var i := old(OpenLogIndex(logs, vehicle.id)).value;
        log == Some(old(logs)[i].(exitedAt := Some(now))) && logs == old(logs)[i := log.value]
      ensures !HasOpenLog(logs, vehicle.id)
    {
      var active := OpenLogIndex(logs, vehicle.id);
      if active.None? {
        return None;
      }
      var i := active.value;
      var closed := logs[i].(exitedAt := Some(now));
      CloseLogKeepsConsistent(vehicles, logs, i, now);
      logs := logs[i := closed];
      log := Some(closed);
    }
  }
}
