/** The stored documents: bookings, charging stations with their slot lists,
    EV owners and back-office users. Status, station type and role are the
    free strings the documents hold; the constants below are the values the
    code compares them with. */
module Models {
  import opened Common
  import opened Clock

  const Pending := "Pending"
  const Approved := "Approved"
  const Started := "Started"
  const Completed := "Completed"
  const Cancelled := "Cancelled"

  /** Charging points per station and hours per day in the availability grid. */
  const ChargingPointsPerStation: int := 3
  const HoursPerDay: int := 24

  datatype Booking = Booking(
    Id: string,
    BookingReference: string,
    EVOwnerNIC: string,
    ChargingStationId: string,
    ChargingPointNumber: int,
    BookingDate: Instant,
    TimeSlot: int,
    StartTime: Instant,
    EndTime: Instant,
    DurationMinutes: int,
    Status: string,
    QRCodeData: string,
    CreatedAt: Instant,
    UpdatedAt: Instant)

  /** The instant the owner queries order and compare by. The queries in
      BookingRepository.cs read a `ReservationDateTime` property that the
      Booking class does not declare; the service interface calls the start
      time `reservationDateTime`, so the model reads `StartTime`. */
  function ReservationDateTime(b: Booking): int {
    b.StartTime
  }

  predicate IsActiveStatus(status: string) {
    status == Pending || status == Approved
  }

  datatype Location = Location(Address: string, City: string, Latitude: real, Longitude: real)

  datatype TimeSlot = TimeSlot(SlotId: string, StartTime: Instant, EndTime: Instant, IsAvailable: bool)

  datatype ChargingStation = ChargingStation(
    Id: string,
    Name: string,
    Location: Option<Location>,
    StationType: string,
    TotalSlots: int,
    AvailableSlots: seq<TimeSlot>,
    AssignedOperatorId: Option<string>,
    IsActive: bool,
    CreatedAt: Instant)

  datatype EVOwner = EVOwner(NIC: string, IsActive: bool)

  datatype User = User(
    Id: string,
    Username: string,
    PasswordHash: string,
    Role: string,
    Email: string,
    IsActive: bool,
    CreatedAt: Instant)
}
