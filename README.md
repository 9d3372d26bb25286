# EV charging booking engine — a Dafny model

This project models the booking and time-slot reservation engine of the
EVWebServerAPI back end (an ASP.NET Core service over MongoDB). It also
covers the station rules and the account rules that sit beside it.

- **The 3 × 24 slot grid.** It covers charging points 1..3 and hours 0..23.
  A station has a full view, a mobile view and an available-only view, and
  there is a single-slot check. Booking a free slot creates an auto-approved
  one-hour booking (`Services/TimeSlotService.cs`).
- **The owner-facing booking rules.** Bookings can only be modified or
  cancelled at least 12 hours before the start, and a start must lie within
  7 days. Create, update and cancel go through these rules, behind the EV
  owner check (`Services/BookingService.cs`).
- **The bookings collection.** It covers the upcoming and history queries
  with their sort orders, the per-status counts, the `EVB…` reference stamp
  and the `UpdatedAt` stamp (`Repositories/BookingRepository.cs`).
- **QR credentials.** A credential is issued only for an Approved booking,
  expires one hour after the start and is validated against the live
  booking (`Services/QRCodeService.cs`).
- **The operator lifecycle actions.** These are the status PATCH, approve,
  start, complete, generate-QR and validate-QR, plus the id check of
  `Update` (`Controllers/BookingsController.cs`).
- **Station rules.**
  - AC/DC type check, location check and default slots on create.
  - The type lock on update and the radius guard.
  - Adding and removing time slots.
  - Deactivate and delete are refused while bookings exist.

  (`Services/ChargingStationService.cs`,
  `Repositories/ChargingStationRepository.cs`)
- **Account rules.**
  - Role whitelist and username check on create.
  - The password hash is kept on update.
  - Login, password change, station-operator creation, activation.

  (`Services/UserService.cs`)

Modelling choices:

- **Time.** An instant is a natural number of milliseconds since
  0001-01-01T00:00 UTC, which is `DateTime.MinValue`. `DateTime.MaxValue` is
  `Clock.MaxInstant`. `.Date` truncates to the day, and the `yyyyMMddHHmmss`,
  `yyyyMMddHHmmssfff` and `yyyy-MM-dd` formats are computed with the
  proleptic Gregorian calendar. `DateTime.UtcNow` is a `now` parameter,
  read once per request.
- **Collections.** Each MongoDB collection is a repository class owning a
  `seq` of records in store order. A fetch-modify-replace is a record
  update followed by a replacement of the first record with that id. A
  store-generated `ObjectId` is a `generatedId` parameter that is not yet in
  use.
- **Errors.** `ArgumentException`, `InvalidOperationException` and database
  errors are `Common.Error` values inside a `Result`. A controller's HTTP
  answer is an `ActionResult`.
- **QR text.** The JSON-plus-Base64 text of a QR code is a length-prefixed
  field encoding. Its round trip is proved (`QRCodec.DecodeEncode`).
- **Password hash.** The SHA-256 hash is a function the user service is
  given. Nothing about it is assumed.

Modules, one per source file:

| module | file |
|---|---|
| `Clock`, `Decimal`, `Collections`, `Keyed`, `Common`, `Models` | shared definitions |
| `BookingStore` | booking_repository.dfy |
| `BookingRules` | booking_service.dfy |
| `QRCodec` | qr_codec.dfy |
| `QRCodes` | qr_service.dfy |
| `StationStore` | station_repository.dfy |
| `StationRules` | station_service.dfy |
| `TimeSlots` | time_slots.dfy |
| `BookingsApi` | bookings_controller.dfy |
| `Accounts` | user_service.dfy |

## Model

| member | source | states |
|---|---|---|
| BookingStore.FindById | Repositories/BookingRepository.cs:24-27 | None exactly when no stored booking has the id; otherwise a stored booking with that id |
| BookingStore.Reference | Repositories/BookingRepository.cs:63-68 | the reference is 17 characters: `EVB` followed by the creation instant as `yyyyMMddHHmmss` |
| BookingStore.SameSecondSameReference | Repositories/BookingRepository.cs:66-67 | two creations within the same second get the same reference |
| BookingStore.GetUpcomingByEVOwnerNIC | Repositories/BookingRepository.cs:34-42 | ascending by reservation time; holds exactly the owner's Pending/Approved bookings at or after now, each as often as stored |
| BookingStore.GetHistoryByEVOwnerNIC | Repositories/BookingRepository.cs:44-51 | descending by reservation time; holds exactly the owner's bookings that are past, Completed or Cancelled, each as often as stored |
| BookingStore.CountByStatus | Repositories/BookingRepository.cs:53-61 | the pending and approved counts equal the number of the owner's bookings with exactly that status |
| BookingStore.HasActiveBookingsForStation | Repositories/BookingRepository.cs:81-87 | true iff some booking at the station is Pending or Approved |
| BookingStore.IsCellFree | Services/TimeSlotService.cs:158 | assumed repository check: true iff no stored booking, of any status, has that station, point, booking date and hour |
| BookingStore.BookingRepository.Create | Repositories/BookingRepository.cs:63-68 | stamps the reference and appends, keeping ids unique; an id already in use is a duplicate-key error and nothing is stored; no other id's lookup changes |
| BookingStore.BookingRepository.Update | Repositories/BookingRepository.cs:70-74 | stamps `UpdatedAt` = now and replaces the record with that id; every other id looks up as before |
| BookingStore.BookingRepository.Delete | Repositories/BookingRepository.cs:76-79 | the id no longer looks up, every other id looks up as before, and the length drops by one exactly when the id was stored |
| BookingRules.WindowIsInclusive | Services/BookingService.cs:148-153 | a start exactly at now or exactly now + 7 days is inside the window; one millisecond beyond either end is outside |
| BookingRules.ModifyRuleStaysClosed | Services/BookingService.cs:141-146 | once a booking is within 12 hours of its start it stays unmodifiable at every later instant |
| BookingRules.FindOwner | Repositories/EVOwnerRepository.cs:24-27 | None exactly when no owner has the NIC; otherwise an owner with that NIC |
| BookingRules.GetUpcomingBookingsByEVOwner | Services/BookingService.cs:30-40 | `ArgumentException` iff the owner is missing or inactive; otherwise exactly the upcoming bookings, ascending |
| BookingRules.GetBookingHistoryByEVOwner | Services/BookingService.cs:42-51 | `ArgumentException` iff the owner is missing or inactive; otherwise exactly the history, descending |
| BookingRules.GetPendingBookingsCount | Services/BookingService.cs:53-62 | `ArgumentException` iff the owner is missing or inactive; otherwise the number of the owner's Pending bookings |
| BookingRules.GetApprovedBookingsCount | Services/BookingService.cs:64-73 | `ArgumentException` iff the owner is missing or inactive; otherwise the number of the owner's Approved bookings |
| BookingRules.BookingService.CreateBooking | Services/BookingService.cs:75-92 | the 7-day window is checked first (`InvalidOperationException`), then the owner (`ArgumentException`); nothing is stored on failure; when both checks pass, the id (the body's, or a fresh one when empty) already stored is a duplicate-key error, and otherwise the result is exactly the booking with that id and a reference from `now`, appended with no slot-conflict check |
| BookingRules.BookingService.UpdateBooking | Services/BookingService.cs:94-120 | a missing id is `ArgumentException`; a stored start under 12 h away is `InvalidOperationException`; the 7-day window applies only when the start changes; success replaces the record under `id` with `Id` forced to `id`; the store is unchanged on failure |
| BookingRules.BookingService.CancelBooking | Services/BookingService.cs:122-139 | a missing id is `ArgumentException`; a start under 12 h away is `InvalidOperationException` and keeps the record; otherwise exactly that record is deleted, whatever its status |
| QRCodec.DecodeEncode | Services/QRCodeService.cs:46-58 | every payload whose fields fit their C# types decodes back to itself from its encoding |
| QRCodes.GenerateQRCodeData | Services/QRCodeService.cs:25-50 | a null or non-Approved booking is `InvalidOperationException`; an issued token decodes to the booking's id, reference, owner and station, `GeneratedAt` = now and `ExpiresAt` = start + 1 h |
| QRCodes.ValidateQRCode | Services/QRCodeService.cs:52-92 | every rejection is an `InvalidOperationException`; undecodable text is "Invalid QR code format"; a token past `ExpiresAt` is "expired"; acceptance means decodable, unexpired, the live booking Approved and matching on reference, owner and station |
| QRCodes.RejectsUnapproved | Services/QRCodeService.cs:71-76 | an unexpired token for a missing or non-Approved booking is refused with "Invalid booking or booking not approved" |
| QRCodes.RejectsMismatch | Services/QRCodeService.cs:78-84 | an unexpired token differing from the live Approved booking in reference, owner or station is refused with the mismatch message |
| QRCodes.AcceptsMatching | Services/QRCodeService.cs:56-86 | any well-formed unexpired token matching a live Approved booking on reference, owner and station is accepted; point, start, duration and version are not compared |
| QRCodes.ExpiryBoundary | Services/QRCodeService.cs:65-69 | expiry is strict: accepted at exactly `ExpiresAt`, "expired" one millisecond later |
| QRCodes.IssueThenValidate | Services/QRCodeService.cs:25-86 | for an Approved booking still stored unchanged, the issued token validates at any time up to start + 1 h to a payload carrying that booking's id, reference, owner, station, point, start and duration |
| QRCodes.IsQRCodeValid | Services/QRCodeService.cs:94-105 | never an error; true exactly when the payload decodes, names the expected booking and has not expired, and that booking is stored, Approved and matches the payload's reference, owner and station |
| QRCodes.IssuedTokenIsValid | Services/QRCodeService.cs:94-105 | a token issued for a stored Approved booking is valid for that booking's id up to start + 1 h |
| StationStore.FindStation | Repositories/ChargingStationRepository.cs:24-27 | None exactly when no station has the id; otherwise a stored station with that id |
| StationStore.GetStationsByType | Repositories/ChargingStationRepository.cs:34-39 | exactly the active stations of that type, drawn from the store |
| StationStore.GetByOperatorId | Repositories/ChargingStationRepository.cs:120-125 | exactly the active stations assigned to that operator, drawn from the store |
| StationStore.HasBookingsForStation | Repositories/ChargingStationRepository.cs:77-78 | true iff some booking of any status is at the station |
| StationStore.ChargingStationRepository.Create | Repositories/ChargingStationRepository.cs:41-45 | inserts the station under its id or the generated one; an id in use is a duplicate-key error with nothing stored |
| StationStore.ChargingStationRepository.Update | Repositories/ChargingStationRepository.cs:47-50 | replaces the station with that id; every other id looks up as before |
| StationStore.ChargingStationRepository.Deactivate | Repositories/ChargingStationRepository.cs:52-73 | true iff the station exists and has no Pending/Approved booking; then only its `IsActive` becomes false; otherwise nothing changes |
| StationStore.ChargingStationRepository.Delete | Repositories/ChargingStationRepository.cs:75-86 | refused with no change while any booking is at the station; otherwise the station is removed, and the result is true iff one was removed |
| StationRules.GetStationsByTypeChecked | Services/ChargingStationService.cs:33-41 | `ArgumentException` iff the type is not exactly "AC" or "DC"; otherwise exactly the active stations of that type |
| StationRules.CheckNearbyRadius | Services/ChargingStationService.cs:94-102 | the radius passes iff it lies in (0, 100] km; otherwise `ArgumentException` |
| StationRules.DefaultSlotsShape | Services/ChargingStationService.cs:148-165 | the default slots are available, hour-long and back to back from 08:00 to 18:00 of the creation day, with distinct ids |
| StationRules.GenerateDefaultTimeSlots | Services/ChargingStationService.cs:148-165 | exactly 10 slots, the i-th being `SLOT_{i+1}` from 08:00 + i h to 09:00 + i h of the current day, all available |
| StationRules.SlotIdFor | Services/ChargingStationService.cs:112-116 | a given slot id is kept; an empty one becomes `SLOT_` and the current instant as `yyyyMMddHHmmssfff` |
| StationRules.RemoveUndoesAdd | Services/ChargingStationService.cs:104-146 | adding a slot with a fresh id and then removing that id restores the slot list |
| StationRules.SlotIdsStayUnique | Services/ChargingStationService.cs:118-143 | adding a slot with a fresh id, or removing one, keeps slot ids unique |
| StationRules.ChargingStationService.CreateStation | Services/ChargingStationService.cs:43-64 | a bad type, then a missing location, is `ArgumentException` with nothing stored; an empty slot list gets the 10 default slots and a non-empty one is kept; with type and location valid, an id (the body's, or a fresh one when empty) already stored is a duplicate-key error, and otherwise the station is appended under that id |
| StationRules.ChargingStationService.UpdateStation | Services/ChargingStationService.cs:66-82 | a missing station is `ArgumentException`; a type change is `InvalidOperationException`; neither writes; otherwise the station is replaced |
| StationRules.ChargingStationService.AddTimeSlot | Services/ChargingStationService.cs:104-127 | a missing station is `ArgumentException`; a duplicate slot id is `InvalidOperationException` with no change; otherwise the slot is appended at the end of that station's list and nothing else changes |
| StationRules.ChargingStationService.RemoveTimeSlot | Services/ChargingStationService.cs:129-146 | an unknown station or slot is `ArgumentException`; otherwise exactly the first slot with that id is removed, the others keep their order, and the list shrinks by one |
| TimeSlots.HourLabel | Services/TimeSlotService.cs:116 | five characters: the hour as two digits followed by `:00` |
| TimeSlots.TimeRange | Services/TimeSlotService.cs:67 | the label of the hour, ` - `, and the label of the next hour |
| TimeSlots.Holder | Services/TimeSlotService.cs:61-62 | None exactly when the cell is free; otherwise a stored booking that holds the cell |
| TimeSlots.IsTimeSlotAvailable | Services/TimeSlotService.cs:150-159 | true iff point ∈ 1..3, hour ∈ 0..23 and no stored booking holds the cell on exactly the given date |
| TimeSlots.CellBookingIsHolder | Services/TimeSlotService.cs:39-62 | the booking the grid finds among the day's station bookings is the first stored booking that holds the cell |
| TimeSlots.CellMeaning | Services/TimeSlotService.cs:50-77 | the grid has points 1, 2, 3 in order, each with 24 slots for hours 0..23; a cell is available iff no stored booking holds it; a taken cell names the first holder's owner NIC and id |
| TimeSlots.CheckAgreesWithGrid | Services/TimeSlotService.cs:150-159 | at midnight, the single-slot check is true iff the point and hour are in range and the grid shows that cell available |
| TimeSlots.MobileAgrees | Services/TimeSlotService.cs:82-127 | the mobile view has the same points, hours and availability as the full view, labels each slot with the start of its time range, and shows the day as `yyyy-MM-dd` |
| TimeSlots.AvailableHours | Services/TimeSlotService.cs:129-148 | the available-only view keeps all 3 points, and an hour is listed for a point iff it is in 0..23 and no stored booking holds the cell |
| TimeSlots.AvailableInHourOrder | Services/TimeSlotService.cs:136-145 | each point's available-only list is in strictly increasing hour order, and each entry equals the grid's cell for its hour |
| TimeSlots.SameDaySameAvailability | Services/TimeSlotService.cs:38 | two instants on the same day give the same availability answer |
| TimeSlots.BookFreeCell | Services/TimeSlotService.cs:173-201 | storing a booking on a free cell makes the cell taken and keeps every cell held at most once |
| TimeSlots.SlotWithinDay | Services/TimeSlotService.cs:183-184 | a slot starts `hour` hours into its booking day and ends no later than the end of that day |
| TimeSlots.TimeSlotService.GetStationAvailability | Services/TimeSlotService.cs:32-80 | an unknown station is `ArgumentException`; otherwise the grid for the day of `date`, built by the nested loops point by point and hour by hour |
| TimeSlots.TimeSlotService.GetMobileStationAvailability | Services/TimeSlotService.cs:82-127 | an unknown station is `ArgumentException`; otherwise the mobile grid for the day of `date` |
| TimeSlots.TimeSlotService.GetAvailableTimeSlots | Services/TimeSlotService.cs:129-148 | an unknown station is `ArgumentException`; otherwise each point of the grid with only its available slots |
| TimeSlots.TimeSlotService.CreateTimeSlotBooking | Services/TimeSlotService.cs:161-203 | a bad point, then a bad hour, is `ArgumentException`; a taken cell is `InvalidOperationException`; nothing is stored on failure; otherwise one Approved 60-minute booking is appended on the requested day and hour; the cell is then taken and no cell is held twice |
| BookingsApi.ValidateQRCodeAction | Controllers/BookingsController.cs:344-379 | always a 200; `IsValid` iff the service accepts; a valid answer carries the payload's booking fields and status Approved; an invalid one carries only the service's message |
| BookingsApi.CompletionAtStartRefused | Controllers/BookingsController.cs:485-488 | concrete case: completion of a session starting now is refused, and the same session was still completable 12 hours earlier |
| BookingsApi.BookingsController.Update | Controllers/BookingsController.cs:229-254 | a path id differing from the body's `Id` is BadRequest with no store change; otherwise the service's outcome, with `ArgumentException` as NotFound and `InvalidOperationException` as BadRequest: for a stored booking, a start under 12 h away is BadRequest, a changed start outside the 7-day window is BadRequest, and anything else is Ok with the booking stamped `UpdatedAt` = now |
| BookingsApi.BookingsController.GenerateQRCode | Controllers/BookingsController.cs:311-339 | NotFound for a missing booking; BadRequest unless Approved; BadRequest unless the start is 12 h away; otherwise the token is stored on the booking and stays valid for it until start + 1 h |
| BookingsApi.BookingsController.TokenStaysValid | Controllers/BookingsController.cs:322-327 | storing the token and `UpdatedAt` on the booking does not invalidate the token |
| BookingsApi.BookingsController.SetStatusDirect | Controllers/BookingsController.cs:389-401 | NotFound with no change for a missing id; otherwise only that booking's status and `UpdatedAt` change, with no time rule and no check of the previous status |
| BookingsApi.BookingsController.UpdateBookingStatus | Controllers/BookingsController.cs:384-407 | stores whatever status string is supplied, bypassing the time rules; every other id looks up as before |
| BookingsApi.BookingsController.ApproveBooking | Controllers/BookingsController.cs:412-433 | sets Approved and `UpdatedAt` from any previous status, at any time; every other id looks up as before; NotFound with no change for a missing id |
| BookingsApi.BookingsController.StartCharging | Controllers/BookingsController.cs:438-459 | sets Started and `UpdatedAt` from any previous status, at any time; every other id looks up as before; NotFound with no change for a missing id |
| BookingsApi.BookingsController.CompleteBooking | Controllers/BookingsController.cs:464-495 | non-empty QR data invalid for this id is BadRequest with no change; empty QR data skips the check; a start under 12 h away is a 500 with no change; a successful QR-gated completion starts from Approved; on success every other id looks up as before |
| BookingsApi.BookingsController.CompleteBookingDirect | Controllers/BookingsController.cs:475-488 | the same QR gate, then Completed is stored at any time; a successful QR-gated completion starts from Approved; on success every other id looks up as before |
| Accounts.FindUser | Repositories/UserRepository.cs:24-27 | None exactly when no user has the id; otherwise a stored user with that id |
| Accounts.FindByUsername | Repositories/UserRepository.cs:29-32 | None exactly when no user has the name; otherwise a stored user with that name |
| Accounts.Authenticate | Services/UserService.cs:84-93 | true exactly when the first stored user with that username is active and the password's hash equals that user's stored hash |
| Accounts.LoginAfterReplace | Services/UserService.cs:108-109 | re-saving a user under the same name changes what a login by name finds only where it found that user |
| Accounts.UserRepository.Create | Repositories/UserRepository.cs:34-38 | inserts the user under its id or the generated one; an id in use is a duplicate-key error with nothing stored |
| Accounts.UserRepository.Update | Repositories/UserRepository.cs:40-43 | replaces the user with that id; every other id looks up as before |
| Accounts.UserRepository.Delete | Repositories/UserRepository.cs:45-48 | the id no longer looks up; every other id looks up as before |
| Accounts.UserService.CreateUser | Services/UserService.cs:37-55 | a role other than Backoffice/StationOperator is `ArgumentException`, checked first; a taken username is `InvalidOperationException`; nothing is stored on failure; with a valid role and a free username, an id (the body's, or a fresh one when empty) already stored is a duplicate-key error, and otherwise the result is exactly the user with that id and the password's hash; an active one can then log in with it |
| Accounts.UserService.UpdateUser | Services/UserService.cs:57-70 | a missing id is `ArgumentException`; otherwise the record is replaced but keeps the stored password hash, whatever the input carried |
| Accounts.UserService.DeleteUser | Services/UserService.cs:72-82 | a missing id is `ArgumentException`; otherwise exactly that user is removed |
| Accounts.UserService.ChangePassword | Services/UserService.cs:95-111 | an unknown id is `ArgumentException`; a wrong current password is `InvalidOperationException` with the hash unchanged; otherwise the hash becomes the new password's hash and the user can log in with it |
| Accounts.UserService.CreateStationOperator | Services/UserService.cs:129-148 | a taken username is `InvalidOperationException` with nothing stored; otherwise an active StationOperator with the password's hash is appended and can log in |
| Accounts.UserService.SetUserActive | Services/UserService.cs:150-174 | true iff the user exists; then only `IsActive` changes; a deactivated user can no longer log in |
| Accounts.UserService.DeactivateUser | Services/UserService.cs:150-161 | false with no change for an unknown id; otherwise `IsActive` becomes false, nothing else in the record changes, and every other id looks up as before |
| Accounts.UserService.ActivateUser | Services/UserService.cs:163-174 | false with no change for an unknown id; otherwise `IsActive` becomes true, nothing else in the record changes, and every other id looks up as before |

## Left out

- **MongoDB and async.** Each collection is a sequence owned by a repository
  class, and every operation runs to completion before the next starts.
  - The check-then-insert of a slot booking is not atomic in the service. The
    model does not claim exclusivity across concurrent requests.
  - `NoDoubleBooking` is preserved only in this sequential model.
- **Repository calls whose bodies are not part of this model.** These have
  assumed contracts and nothing more is claimed:
  - `GetBookingsByStationAndDateAsync`: every booking at the station whose `BookingDate` equals the date, in store order;
  - the repository `IsTimeSlotAvailableAsync`: no booking of any status holds the cell;
  - `GetByChargingStationIdAsync`: every booking at the station;
  - `UpdateBookingStatusDirectAsync`: the repository's replace with its `UpdatedAt` stamp.

  `GetBookingsByStationIdAsync`, `GetActiveBookingsByStationIdAsync` and
  `GetBookingsByOperatorUsernameAsync` feed only listing endpoints and are
  not modelled.
- **`ReservationDateTime`.** The repository queries sort and filter by it,
  but it is not a field of `Booking`. It is modelled as `StartTime`.
- **JSON and Base64.** These are replaced by a length-prefixed text
  encoding with the same round trip. Base64 alphabet errors, JSON syntax and
  a JSON `null` payload all map to the single undecodable case.
- **SHA-256.** The password hash is an uninterpreted function, so the model
  never relies on it being collision-free.
- **Floating point.** The haversine distance and `GetNearbyStationsAsync`
  are not modelled; only the radius guard is. The model's radius is a real
  number with no NaN. In C# a NaN radius passes the guard at
  Services/ChargingStationService.cs:96, because both comparisons are false.
- **Nulls.** Null lists are the empty sequence, a null location is `None`,
  and a null station type fails the AC/DC check. A null `QRData` in a
  completion request is treated like the empty string.
- **ObjectId.** Its format and the store's id generation are left out: a
  generated id is any unused non-empty string.
- **Sort ties.** The LINQ sorts are stable. The model proves only the order,
  the membership and the multiplicity of the sorted results, not the
  relative order of bookings with equal times.
- **One `now` per request.** The source reads `DateTime.UtcNow` several times
  per request; the model reads it once.
- **Overflow of `now.AddDays(7)`.** `DateTime` throws when this passes
  `DateTime.MaxValue`. `BookingRules.IsReservationWithinAllowedPeriod` adds
  the seven days as an unbounded integer and does not model that exception.
- **The "Unknown" status of `ValidateQRCode`.** This fallback applies when
  the booking vanishes between the two reads. That cannot happen with a
  single snapshot, so the model always reports Approved.
- **Other parts of the system.** The other controllers, authentication
  tokens, role middleware, startup and demo seeding are not part of this
  model.
- **EV owners.** The EV owners collection is modelled only as the list the
  owner check reads.
- BookingRules.BookingService.CreateBooking, BookingStore.BookingRepository.Create, TimeSlots.TimeSlotService.CreateTimeSlotBooking: require a non-empty `generatedId` that is not yet stored. This stands for the store's id generator.
- BookingsApi.BookingsController.GenerateQRCode: requires the stored booking's point number and duration to fit in 32 bits, as the C# `int` properties do.
- BookingsApi.BookingsController.GenerateQRCode: requires `now` no later than `DateTime.MaxValue`. The same bound applies to `CreateTimeSlotBooking` and the other members that take `now`.
- Accounts.UserService.UpdateUser: requires `user.Id == id`. Both callers meet it: Controllers/UsersController.cs:113 rejects a mismatch first, and Controllers/AuthController.cs:257 passes `user.Id` itself as the id. `Accounts.UserRepository.Update` requires the same because the replacement document carries that id.
- StationRules.ChargingStationService.UpdateStation: requires `station.Id == id`. The only caller rejects a mismatch first, at Controllers/ChargingStationsController.cs:147. `StationStore.ChargingStationRepository.Update` requires the same.
- BookingStore.BookingRepository.Update: requires `booking.Id == id`. Both callers satisfy it: `UpdateBookingAsync` sets the id, and the status actions write back the record they read.
- Accounts.UserService.UpdateUser: does not check that a changed username is still unique. The source does not check this either, so afterwards a login by name finds the first stored user with that name.
- Accounts.UserService.ChangePassword: the login guarantee is stated only when a lookup by name finds this user. Usernames may repeat after `UpdateUser`.
- Accounts.UserService.SetUserActive: the "cannot log in" guarantee after deactivation has the same restriction.
- TimeSlots.TimeSlotService.CreateTimeSlotBooking: a start or end past `DateTime.MaxValue` makes `AddHours` throw. The model reports this as `ArgumentException` with the framework's message text only; the " (Parameter 'value')" suffix that .NET appends, whose wording varies between runtime versions, is not part of the modelled message.

## Findings

| source | as written | input that shows it | evidently intended | confidence | as-written member | corrected member |
|---|---|---|---|---|---|---|
| Controllers/BookingsController.cs:485-488 | Completion is saved through `UpdateBookingAsync`, whose 12-hour rule refuses any booking starting less than 12 hours from now; the refusal is caught and answered with a 500 | an Approved booking with `StartTime` = now, completed with empty QR data, is answered 500 "Booking can only be modified at least 12 hours before reservation" and stays Approved (`BookingsApi.CompletionAtStartRefused`); the same holds for a Started booking | an operator completes a session at or after its start, as approve and start do, through the direct status write that bypasses the time rules | high, not executed | BookingsApi.BookingsController.CompleteBooking | BookingsApi.BookingsController.CompleteBookingDirect |
