/** The request handlers of the parking API, each as one sequential call
    against the store. The clock is the `now` parameter and the OCR reader's
    output is the `detections` parameter. Replies are tagged values, not
    message dictionaries. */
module Api {
  import opened Models
  import opened Crud
  import opened Fees
  import opened PlateSelection

  datatype EnterReply =
    | Entered(plate: string, enteredAt: Time)
    | AlreadyParked(plate: string)
    | PlateNotDetected

  datatype ExitReply =
    | Exited(enteredAt: Time, exitedAt: Time, minutes: int, fee: int)
    | VehicleNotFound
    | NotParked

  /** One line of the parked-vehicles listing. */
  datatype ParkedEntry = ParkedEntry(plate: string, enteredAt: Time, minutesParked: int, currentFee: int)

  /** No log entered later than `now`: the clock has not gone backwards. */
  predicate ClockNotBefore(logs: seq<ParkingLog>, now: Time) {
    forall i :: 0 <= i < |logs| ==> logs[i].enteredAt <= now
  }

  /** `POST /enter`: registers the plate (as given, not normalised) on first
      sight, then opens a stay unless one is already open. Afterwards exactly
      one vehicle carries the plate and it is parked. */
  method EnterCar(db: Store, plate: string, now: Time) returns (r: EnterReply)
    requires db.Valid()
    modifies db
    ensures db.Valid()
    ensures VehicleByPlate(db.vehicles, plate).Some?
    ensures old(VehicleByPlate(db.vehicles, plate)).Some? ==> db.vehicles == old(db.vehicles)
    ensures old(VehicleByPlate(db.vehicles, plate)).None? ==>
      db.vehicles == old(db.vehicles) + [Vehicle(|old(db.vehicles)| + 1, plate, true)]
    ensures var vehicleId := VehicleByPlate(db.vehicles, plate).value.id;
      && HasOpenLog(db.logs, vehicleId)
      && (old(HasOpenLog(db.logs, vehicleId)) ==> r == AlreadyParked(plate) && db.logs == old(db.logs))
      && (!old(HasOpenLog(db.logs, vehicleId)) ==>
            r == Entered(plate, now) && db.logs == old(db.logs) + [ParkingLog(|old(db.logs)| + 1, vehicleId, now, None)])
  {
    var found := VehicleByPlate(db.vehicles, plate);
    var vehicle: Vehicle;
    if found.Some? {
      vehicle := found.value;
    } else {
      var created := db.CreateVehicle(plate);
      vehicle := created.value;
    }
    var log := db.VehicleEnter(vehicle, now);
    if log.None? {
      return AlreadyParked(plate);
    }
    return Entered(plate, log.value.enteredAt);
  }

  /** `POST /enter-with-image`: the plate read from the image, normalised,
      enters as with `EnterCar`; with no readable plate nothing changes. */
  method EnterCarWithImage(db: Store, detections: seq<Detection>, now: Time) returns (r: EnterReply)
    requires db.Valid()
    modifies db
    ensures db.Valid()
    ensures ExtractPlate(detections).None? ==>
      r == PlateNotDetected && db.vehicles == old(db.vehicles) && db.logs == old(db.logs)
    ensures ExtractPlate(detections).Some? ==>
      var plate := ExtractPlate(detections).value;
      && VehicleByPlate(db.vehicles, plate).Some?
      && (old(VehicleByPlate(db.vehicles, plate)).Some? ==> db.vehicles == old(db.vehicles))
      && (old(VehicleByPlate(db.vehicles, plate)).None? ==>
            db.vehicles == old(db.vehicles) + [Vehicle(|old(db.vehicles)| + 1, plate, true)])
      && var vehicleId := VehicleByPlate(db.vehicles, plate).value.id;
         && HasOpenLog(db.logs, vehicleId)
         && (old(HasOpenLog(db.logs, vehicleId)) ==> r == AlreadyParked(plate) && db.logs == old(db.logs))
         && (!old(HasOpenLog(db.logs, vehicleId)) ==>
               r == Entered(plate, now) && db.logs == old(db.logs) + [ParkingLog(|old(db.logs)| + 1, vehicleId, now, None)])
  {
    var plate := ExtractPlate(detections);
    if plate.None? {
      return PlateNotDetected;
    }
    r := EnterCar(db, plate.value, now);
  }

  /** `POST /exit`: closes the plate's open stay at `now` and bills it.
      An unknown plate and a plate with no open stay are errors that change
      nothing. */
  method ExitCar(db: Store, plate: string, now: Time) returns (r: ExitReply)
    requires db.Valid()
    modifies db
    ensures db.Valid()
    ensures db.vehicles == old(db.vehicles)
    ensures old(VehicleByPlate(db.vehicles, plate)).None? ==> r == VehicleNotFound && db.logs == old(db.logs)
    ensures old(VehicleByPlate(db.vehicles, plate)).Some? ==>
      var vehicleId := old(VehicleByPlate(db.vehicles, plate)).value.id;
      && !HasOpenLog(db.logs, vehicleId)
      && (!old(HasOpenLog(db.logs, vehicleId)) ==> r == NotParked && db.logs == old(db.logs))
      && (old(HasOpenLog(db.logs, vehicleId)) ==>
            var i := old(OpenLogIndex(db.logs, vehicleId)).value;
            var closed := old(db.logs)[i].(exitedAt := Some(now));
            && db.logs == old(db.logs)[i := closed]
            && r == Exited(closed.enteredAt, now, CalculateMinutes(closed), CalculateFee(CalculateMinutes(closed))))
    ensures r.Exited? && old(ClockNotBefore(db.logs, now)) ==>
      r.enteredAt <= r.exitedAt && r.minutes >= 0 && r.fee >= 0
  {
    var vehicle := VehicleByPlate(db.vehicles, plate);
    if vehicle.None? {
      return VehicleNotFound;
    }
    ghost var i := OpenLogIndex(db.logs, vehicle.value.id);
    var log := db.VehicleExit(vehicle.value, now);
    if log.None? {
      return NotParked;
    }
    var closed := log.value;
    assert closed.enteredAt == old(db.logs)[i.value].enteredAt;
    var minutes := CalculateMinutes(closed);
    var fee := CalculateFee(minutes);
    return Exited(closed.enteredAt, closed.exitedAt.value, minutes, fee);
  }

  /** `GET /parked-vehicles`: every open stay with its vehicle's plate, the
      whole minutes since entry and the fee so far, and their number. Reads
      the store without changing it. */
  method GetParkedVehicles(db: Store, now: Time) returns (total: nat, vehicles: seq<ParkedEntry>)
    requires db.Valid()
    ensures total == |vehicles| == OpenCount(db.logs)
    ensures var pairs := ParkedPairs(db.vehicles, db.logs);
      && |vehicles| == |pairs|
      && forall i :: 0 <= i < |pairs| ==>
           && vehicles[i].plate == pairs[i].0.plate
           && vehicles[i].enteredAt == pairs[i].1.enteredAt
           && vehicles[i].minutesParked == ElapsedMinutes(pairs[i].1.enteredAt, now)
           && vehicles[i].currentFee == CalculateFee(vehicles[i].minutesParked)
  {
    var parked := ParkedPairs(db.vehicles, db.logs);
    var result: seq<ParkedEntry> := [];
    for k := 0 to |parked|
      invariant |result| == k
      invariant forall i :: 0 <= i < k ==>
        && result[i].plate == parked[i].0.plate
        && result[i].enteredAt == parked[i].1.enteredAt
        && result[i].minutesParked == ElapsedMinutes(parked[i].1.enteredAt, now)
        && result[i].currentFee == CalculateFee(result[i].minutesParked)
    {
      var (vehicle, log) := parked[k];
      var minutes := ElapsedMinutes(log.enteredAt, now);
      var fee := CalculateFee(minutes);
      result := result + [ParkedEntry(vehicle.plate, log.enteredAt, minutes, fee)];
    }
    ConsistentKeysUnique(db.vehicles, db.logs);
    ParkedPairsCount(db.vehicles, db.logs);
    return |result|, result;
  }

  /** A car that is inside is refused a second entry; once it has left it
      is let in again. */
  method ReentryAfterExit(db: Store, plate: string, t1: Time, t2: Time, t3: Time)
    returns (first: EnterReply, refused: EnterReply, left: ExitReply, readmitted: EnterReply)
    requires db.Valid()
    modifies db
    ensures db.Valid()
    ensures first == Entered(plate, t1) || first == AlreadyParked(plate)
    ensures refused == AlreadyParked(plate)
    ensures left.Exited? && left.exitedAt == t2
    ensures first.Entered? ==> left.enteredAt == t1
    ensures readmitted == Entered(plate, t3)
  {
    first := EnterCar(db, plate, t1);
    ghost var vehicleId := VehicleByPlate(db.vehicles, plate).value.id;
    ghost var n := |db.logs|;
    refused := EnterCar(db, plate, t1);
    if first.Entered? {
      OpenLogIsOnly(db.logs, vehicleId, n - 1);
    }
    left := ExitCar(db, plate, t2);
    readmitted := EnterCar(db, plate, t3);
  }
}
