# Parking ledger in Dafny

This project models the core of a small parking-lot backend. The backend keeps two tables:

- **vehicles**: an integer id, a unique plate and an `is_allowed` flag.
- **parking logs**: an id, the vehicle's id, an entry time and an exit time that may be absent.

A log with no exit time is *open*: the car is still inside. The core moves a vehicle between "not parked" and "parked". The rule it keeps is that **a vehicle never has more than one open log**. The core also does four more things:

- it bills a stay at 2000 per started hour, counted in whole minutes truncated toward zero;
- it lists the cars currently inside;
- it lists the logs newest first;
- it picks a plate out of the detections of an OCR reader.

Modules, one per part of the source:

- `Models` (models.py): the two record types. The predicate `Consistent` holds everything the store keeps true: row ids, unique plates, the foreign key, and at most one open log per vehicle.
- `Fees` (the arithmetic of crud.py): `ElapsedMinutes`, `CalculateMinutes` and `CalculateFee`. Python's truncating `int()` and `math.ceil` are written out, because Dafny's `/` rounds differently on negative numbers.
- `Crud` (crud.py): the read-only queries are functions over the two sequences. The class `Store` holds `vehicles: seq<Vehicle>` and `logs: seq<ParkingLog>`. Its methods `CreateVehicle`, `VehicleEnter` and `VehicleExit` change the store and keep `Valid()`.
- `Sorting`: the stable descending insertion sort behind both `ORDER BY entered_at DESC` and `sorted(..., reverse=True)`.
- `PlateSelection` (main.py): the pure selection inside `extract_plate_from_image`, and a reference definition of "the most confident qualifying detection, the earliest among equals". A lemma proves that the two agree.
- `Api` (main.py): the handlers `EnterCar`, `EnterCarWithImage`, `ExitCar` and `GetParkedVehicles`, as methods on a `Store`. Time is an integer number of seconds passed in as `now`. The OCR output is passed in as a sequence of detections. Errors are tagged replies.

`/enter` and `/exit` use the plate exactly as given. Only the image flow normalises it (upper case, no spaces, no hyphens). The model keeps this difference.

## Model

| member | source | states |
|---|---|---|
| Models.ConsistentKeysUnique | models.py:6-20 | In a consistent store no two vehicles share an id and no two logs share an id. |
| Models.HasVehicleIsRow | models.py:18 | A log's vehicle id refers to an existing vehicle exactly when it lies between 1 and the number of vehicle rows. |
| Sorting.SortDesc | crud.py:85 | The sorted sequence is a permutation of the input, with keys in non-increasing order. |
| Sorting.InsertSorted | main.py:43 | Inserting into a descending sequence keeps it descending. |
| Sorting.PrefixHoldsLargest | crud.py:83-86 | The first `limit` elements of a descending sequence are sorted, are drawn from the input, and are at least as large as every element left out. |
| Fees.ElapsedMinutes | main.py:129-130 | The number of whole minutes between two instants, truncated toward zero: `60*m <= d < 60*(m+1)` for a non-negative difference `d`, mirrored for a negative one. |
| Fees.CalculateMinutes | crud.py:56-58 | A closed stay's minutes; never negative when the exit is not before the entry. |
| Fees.StartedHours | crud.py:62 | The least whole number of hours covering the minutes (ceiling division). |
| Fees.CalculateFee | crud.py:61-63 | The fee is a multiple of 2000 and equals 2000 times the least number of hours covering the minutes; it is non-negative for non-negative minutes. |
| Fees.FeeMonotone | crud.py:61-63 | The fee never decreases as the minutes grow. |
| Fees.FeeExamples | crud.py:61-63 | fee(0)=0, fee(1)=2000, fee(60)=2000, fee(61)=4000, fee(90)=4000. |
| Fees.DurationExamples | crud.py:56-58 | 125 s gives 2 minutes; 10:00:00 to 11:30:00 gives 90 minutes and fee 4000; zero elapsed time gives 0 minutes and fee 0. |
| Crud.VehicleByPlate | crud.py:7-8 | It returns a stored vehicle with that plate, and returns none exactly when no vehicle has that plate. |
| Crud.PlateLookupIsExact | crud.py:7-8 | With unique plates, looking up a stored vehicle's plate returns that vehicle. |
| Crud.VehicleById | crud.py:79-80 | It returns a stored vehicle with that id, and returns none exactly when no vehicle has that id. |
| Crud.IdLookupIsRow | crud.py:79-80 | With row ids, an id between 1 and n finds the row at that position; any other id finds nothing. |
| Crud.OpenLogIndex | crud.py:20-25 | It returns the position of an open log of the vehicle, and returns none exactly when the vehicle has no open log. |
| Crud.OpenLogIsOnly | crud.py:20-28 | Under the one-open-log rule, any open log of the vehicle is the one the lookup finds. |
| Crud.OpenCount | main.py:140 | The number of open logs; zero exactly when no log is open. |
| Crud.Joined | crud.py:68-69 | The join of one log with vehicle rows contains exactly the pairs whose vehicle id matches. |
| Crud.ParkedPairs | crud.py:66-72 | The result holds exactly the (vehicle, log) pairs with `log.vehicleId == vehicle.id` and the log open. |
| Crud.JoinedNone | crud.py:68-69 | The join is empty when no vehicle has the log's vehicle id. |
| Crud.JoinedOnce | crud.py:68-69 | With unique vehicle ids, a log whose vehicle exists joins exactly one row. |
| Crud.ParkedPairsCount | crud.py:66-72 | In a consistent store the number of parked pairs equals the number of open logs. |
| Crud.RecentLogs | crud.py:83-86 | It returns min(limit, number of logs) logs, newest entry first, drawn from the table; no log left out entered later than a returned one. `limit` defaults to 50. |
| Crud.DefaultLimit | crud.py:83 | Without a limit, the result holds 50 logs, or all of them when there are fewer. |
| Crud.LogsOf | crud.py:92 | It keeps exactly the logs of the given vehicle. |
| Crud.VehicleLogs | crud.py:89-95 | It returns exactly that vehicle's logs, each as often as in the table, newest entry first. |
| Crud.AppendOpenLogKeepsConsistent | crud.py:27-35 | Appending an open log for a known vehicle with no open log keeps the store consistent, and leaves the vehicle parked. |
| Crud.CloseLogKeepsConsistent | crud.py:46-53 | Stamping an exit time on an open log keeps the store consistent, and leaves that vehicle with no open log. |
| Crud.AppendVehicleKeepsConsistent | crud.py:11-16 | Adding a vehicle with a fresh plate and the next id keeps the store consistent. |
| Crud.Store.AllVehicles | crud.py:75-76 | Every stored vehicle is returned; the plates and ids are all distinct. |
| Crud.Store.CreateVehicle | crud.py:11-16 | A new plate gets the next id and `is_allowed = true`, and is appended; a taken plate fails with `PlateTaken` and changes nothing. |
| Crud.Store.VehicleEnter | crud.py:19-35 | A vehicle that already has an open log gets `None` and nothing changes. Otherwise exactly one open log (next id, this vehicle, entered at `now`) is appended and the other logs are untouched. Either way the vehicle has exactly one open log afterwards. |
| Crud.Store.VehicleExit | crud.py:38-53 | With no open log the result is `None` and nothing changes. Otherwise only that log gets `exitedAt = now`, and the vehicle has no open log afterwards. |
| PlateSelection.UpperPointwise | main.py:47 | Upper-casing keeps the length and replaces every character by its upper case, in place. |
| PlateSelection.UpperAppend | main.py:47 | Upper-casing a concatenation upper-cases each part separately. |
| PlateSelection.UpperIsUpperCased | main.py:47 | Every character of the upper-cased text is upper case. |
| PlateSelection.WithoutKeepsOthers | main.py:47 | `replace(c, "")` leaves no `c`, and keeps every other character exactly as often as it occurs. |
| PlateSelection.WithoutAbsent | main.py:47 | Text that holds no `c` comes back unchanged. |
| PlateSelection.WithoutAppend | main.py:47 | Removal from a concatenation is the concatenation of the removals, so the kept characters keep their order. |
| PlateSelection.WithoutKeepsUpperCased | main.py:47 | Removing characters from upper-case text leaves it upper case. |
| PlateSelection.Normalize | main.py:47 | A normalised plate is upper case and holds no space and no hyphen. |
| PlateSelection.NormalizeKeepsOthers | main.py:47 | Every character of the upper-cased text other than a space or a hyphen stays in the plate, exactly as often as it occurs. |
| PlateSelection.NormalizeAppend | main.py:47 | Normalising a concatenation normalises each part separately, in order. |
| PlateSelection.NormalizeChar | main.py:47 | One character becomes its upper case, or nothing when it is a space or a hyphen. With `NormalizeAppend`, this fixes the result for every text. |
| PlateSelection.FirstQualifying | main.py:44-49 | It returns the first detection in list order that qualifies: no detection before it qualifies. It returns none exactly when none qualifies. |
| PlateSelection.ExtractPlate | main.py:42-50 | It returns none exactly when no detection qualifies. A returned plate has length at least 4, is upper case, holds no space or hyphen, and is the normalised text of a detection with confidence above 0.5. |
| PlateSelection.HighestQualifying | main.py:43-49 | Reference choice: the qualifying detection with the highest confidence, strictly above every earlier qualifying one; none exactly when none qualifies. |
| PlateSelection.FirstQualifyingAfterInsert | main.py:43-49 | In a sorted list, inserting a detection changes the first qualifying one only if the new detection qualifies and is at least as confident. |
| PlateSelection.SortedScanIsHighest | main.py:43-49 | Stable sort by confidence and then a scan picks exactly the reference choice. |
| PlateSelection.PlateFromMostConfident | main.py:42-50 | The plate is the normalised text of the most confident qualifying detection, the earliest among equals. There is no plate exactly when none qualifies. |
| PlateSelection.SingleDetection | main.py:42-50 | With one detection, the plate is its normalised text if it qualifies, else none. |
| PlateSelection.NormalizeExample | main.py:47 | " ab-12 34 " normalises to "AB1234". |
| PlateSelection.AcceptExample | main.py:48-49 | " ab-12 34 " at confidence 0.9 yields "AB1234". |
| PlateSelection.RejectShortExample | main.py:48 | "abc" at confidence 0.9 yields no plate. |
| PlateSelection.RejectUnsureExample | main.py:48 | "abcde" at confidence 0.4 yields no plate. |
| Api.EnterCar | main.py:84-94 | Afterwards exactly one vehicle has the plate, created with the next id if it was new, and that vehicle is parked. If it was already parked, the reply is `AlreadyParked` and no log changes. Otherwise one open log entered at `now` is appended. |
| Api.EnterCarWithImage | main.py:56-81 | With no qualifying detection the reply is `PlateNotDetected` and nothing changes. Otherwise the extracted plate is handled exactly as in `EnterCar`. The vehicle table is unchanged, or gains the plate with the next id and `is_allowed = true`. The reply is `AlreadyParked` with the logs unchanged exactly when that vehicle was already parked. Otherwise the reply is `Entered` at `now`, and one open log with the next id, that vehicle and `now` is appended. |
| Api.ExitCar | main.py:98-117 | An unknown plate gives `VehicleNotFound` and a plate with no open log gives `NotParked`; neither changes anything. Otherwise only the open log is closed at `now`, and the reply carries its entry time, `now`, `CalculateMinutes` of the closed log and `CalculateFee` of those minutes. Under a clock that does not go backwards, exit is not before entry and minutes and fee are non-negative. |
| Api.GetParkedVehicles | main.py:121-140 | `total` equals the number of entries, which equals the number of open logs. Each entry carries the plate and entry time of its parked pair, the whole minutes from entry to `now` and the fee of those minutes. The store is only read. |
| Api.ReentryAfterExit | main.py:84-117 | A second entry before exit is refused. Exit then succeeds at the given time, with the entry time of the first entry if that entry was accepted. A later entry is accepted again. |

## Left out

- Web plumbing is not modelled: the application object, CORS, table creation, `get_db` sessions, `commit` and `refresh`. Each store write is a single state update.
- The OCR reader is an input, not a model. `easyocr`, image decoding and `readtext` are replaced by the parameter `detections: seq<Detection>`. The bounding box is dropped because it is never read.
- `/detect-plate` is not modelled separately. It only wraps `ExtractPlate` and touches no store.
- Async file reading and the catch-all `except Exception` that turns any failure into an error reply are not modelled.
- The clock is the integer `now`, in whole seconds. Sub-second time and float `total_seconds()` are not modelled. For differences below 2^53 seconds, the float division then truncation gives the same result as the integer formula.
- PlateSelection.UpperChar: `str.upper()` is modelled only for basic Latin a–z, Cyrillic U+0430–U+045F, ө and ү. Other lower-case letters are left unchanged, although Python upper-cases them. This includes Latin-1 and Latin Extended letters such as é, ñ and ÿ, and the Cyrillic Supplement letters other than ө and ү. Mappings that change length are not captured either.
- Concurrency is not modelled; the model is sequential. The race in which two concurrent entries both see no open log is therefore not captured.
- Error message texts are replaced by reply tags. The `/enter` success body does not echo the plate, but `Entered` carries it in both entry flows.
- `is_allowed` is stored, defaults to true and is never read, as in the source.
- Crud.RecentLogs: `limit` is a `nat`. How a negative SQL `LIMIT` behaves depends on the database engine, which is not part of this model.
- Crud.ParkedPairs: SQL does not fix the order of rows from the join. The model returns them in log order.
- Crud.RecentLogs: the order of logs with equal entry times is not fixed by the source. The model's stable sort keeps table order, and no contract relies on that tie-breaking.
- Crud.Store.CreateVehicle: the ids are 1 + the number of rows. This is how an integer primary key is assigned when rows are never deleted. The database engine's id allocator is not part of this model.
- Crud.Store.VehicleEnter: log ids follow the same scheme, 1 + the number of log rows, for the same reason.
