/** Record shapes of the parking ledger (the `vehicles` and `parking_logs`
    tables) and the consistency rules that the schema and the entry guard
    keep between them. */
module Models {

  datatype Option<+T> = None | Some(value: T)

  datatype Result<+R, +E> = Success(value: R) | Failure(error: E)

  /** Timestamps are whole seconds on the server's clock. */
  type Time = int

  /** A row of `vehicles`: integer primary key, unique non-null plate, and an
      access flag that no operation reads. */
  datatype Vehicle = Vehicle(id: int, plate: string, isAllowed: bool)

  /** A row of `parking_logs`. `exitedAt == None` marks a car that is still
      inside the lot (an "open" log). */
  datatype ParkingLog = ParkingLog(id: int, vehicleId: int, enteredAt: Time, exitedAt: Option<Time>)

  predicate IsOpen(log: ParkingLog) {
    log.exitedAt.None?
  }

  /** The integer primary keys are handed out in insertion order, starting
      at 1; rows are never deleted. */
  predicate VehicleRowIds(vs: seq<Vehicle>) {
    forall i :: 0 <= i < |vs| ==> vs[i].id == i + 1
  }

  predicate LogRowIds(logs: seq<ParkingLog>) {
    forall i :: 0 <= i < |logs| ==> logs[i].id == i + 1
  }

  predicate UniqueVehicleIds(vs: seq<Vehicle>) {
    forall i, j :: 0 <= i < j < |vs| ==> vs[i].id != vs[j].id
  }

  predicate UniqueLogIds(logs: seq<ParkingLog>) {
    forall i, j :: 0 <= i < j < |logs| ==> logs[i].id != logs[j].id
  }

  /** `plate_number` is declared unique. */
  predicate UniquePlates(vs: seq<Vehicle>) {
    forall i, j :: 0 <= i < j < |vs| ==> vs[i].plate != vs[j].plate
  }

  predicate HasVehicle(vs: seq<Vehicle>, vehicleId: int) {
    exists k :: 0 <= k < |vs| && vs[k].id == vehicleId
  }

  /** The foreign key `parking_logs.vehicle_id -> vehicles.id`. */
  predicate LogsReferToVehicles(vs: seq<Vehicle>, logs: seq<ParkingLog>) {
    forall i :: 0 <= i < |logs| ==> HasVehicle(vs, logs[i].vehicleId)
  }

  predicate HasOpenLog(logs: seq<ParkingLog>, vehicleId: int) {
    exists i :: 0 <= i < |logs| && logs[i].vehicleId == vehicleId && IsOpen(logs[i])
  }

  /** The ledger's central rule: a vehicle has at most one open log. */
  predicate AtMostOneOpen(logs: seq<ParkingLog>) {
    forall i, j :: 0 <= i < j < |logs| && IsOpen(logs[i]) && IsOpen(logs[j]) ==> logs[i].vehicleId != logs[j].vehicleId
  }

  /** Everything the store keeps true between calls. */
  predicate Consistent(vs: seq<Vehicle>, logs: seq<ParkingLog>) {
    && VehicleRowIds(vs)
    && LogRowIds(logs)
    && UniquePlates(vs)
    && LogsReferToVehicles(vs, logs)
    && AtMostOneOpen(logs)
  }

  /** Both primary keys are unique in a consistent store. */
  lemma ConsistentKeysUnique(vs: seq<Vehicle>, logs: seq<ParkingLog>)
    requires Consistent(vs, logs)
    ensures UniqueVehicleIds(vs) && UniqueLogIds(logs)
  {
  }

  /** A vehicle row's id is the only way `HasVehicle` can hold: in a consistent
      store, `vehicleId` names exactly the row at index `vehicleId - 1`. */
  lemma HasVehicleIsRow(vs: seq<Vehicle>, vehicleId: int)
    requires VehicleRowIds(vs)
    ensures HasVehicle(vs, vehicleId) <==> 1 <= vehicleId <= |vs|
  {
    if 1 <= vehicleId <= |vs| {
      assert vs[vehicleId - 1].id == vehicleId;
    }
  }
}
