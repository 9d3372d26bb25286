/** The owner-facing booking rules (Services/BookingService.cs): the 12-hour
    modify/cancel rule, the 7-day reservation window, the owner check in front
    of every owner query, and create, update and cancel over the bookings
    collection. */
module BookingRules {
  import opened Common
  import opened Clock
  import opened Collections
  import opened Models
  import opened Keyed
  import opened BookingStore

  const OwnerNotFound := "EV Owner not found or inactive"
  const BookingNotFound := "Booking not found"
  const ModifyTooLate := "Booking can only be modified at least 12 hours before reservation"
  const CancelTooLate := "Booking can only be cancelled at least 12 hours before reservation"
  const OutsideWindow := "Reservation must be within 7 days from booking date"

  /** `CanModifyBookingAsync`: the start is at least 12 hours after `now`. */
  predicate CanModifyBooking(startTime: Instant, now: Instant) {
    startTime - now >= 12 * MsPerHour
  }

  /** `IsReservationWithinAllowedPeriodAsync`: `now <= startTime <= now + 7 days`. */
  predicate IsReservationWithinAllowedPeriod(startTime: Instant, now: Instant) {
    startTime <= now + 7 * MsPerDay && startTime >= now
  }

  /** Both ends of the 7-day window are inclusive: a start exactly at `now`
      or exactly seven days later is accepted, one millisecond outside is not. */
  lemma WindowIsInclusive(now: Instant)
    ensures IsReservationWithinAllowedPeriod(now, now)
    ensures IsReservationWithinAllowedPeriod(now + 7 * MsPerDay, now)
    ensures !IsReservationWithinAllowedPeriod(now + 7 * MsPerDay + 1, now)
    ensures now > 0 ==> !IsReservationWithinAllowedPeriod(now - 1, now)
  {
  }

  /** The 12-hour rule only closes as time passes: a booking that can no
      longer be modified at `t1` cannot be modified at any later `t2`. */
  lemma ModifyRuleStaysClosed(startTime: Instant, t1: Instant, t2: Instant)
    requires t1 <= t2 && !CanModifyBooking(startTime, t1)
    ensures !CanModifyBooking(startTime, t2)
  {
  }

  /** `GetByNICAsync` on the EV owners collection. */
  function FindOwner(owners: seq<EVOwner>, nic: string): (r: Option<EVOwner>)
    ensures r.Some? ==> r.value in owners && r.value.NIC == nic
    ensures r.None? <==> forall j :: 0 <= j < |owners| ==> owners[j].NIC != nic
  {
    First(owners, (o: EVOwner) => o.NIC == nic)
  }

  /** The owner check: the owner exists and is active. */
  predicate OwnerIsActive(owners: seq<EVOwner>, nic: string) {
    var o := FindOwner(owners, nic);
    o.Some? && o.value.IsActive
  }

  /** `GetUpcomingBookingsByEVOwnerAsync`. */
  function GetUpcomingBookingsByEVOwner(owners: seq<EVOwner>, bookings: seq<Booking>, nic: string, now: Instant)
    : (r: Result<seq<Booking>>)
    ensures r.Err? <==> !OwnerIsActive(owners, nic)
    ensures r.Err? ==> r.error == ArgumentException(OwnerNotFound)
    ensures r.Ok? ==> forall b :: b in r.value <==> b in bookings && IsUpcoming(b, nic, now)
    ensures r.Ok? ==> SortedBy(r.value, ReservationDateTime, false)
  {
    if !OwnerIsActive(owners, nic) then Err(ArgumentException(OwnerNotFound))
    else Ok(GetUpcomingByEVOwnerNIC(bookings, nic, now))
  }

  /** `GetBookingHistoryByEVOwnerAsync`. */
  function GetBookingHistoryByEVOwner(owners: seq<EVOwner>, bookings: seq<Booking>, nic: string, now: Instant)
    : (r: Result<seq<Booking>>)
    ensures r.Err? <==> !OwnerIsActive(owners, nic)
    ensures r.Err? ==> r.error == ArgumentException(OwnerNotFound)
    ensures r.Ok? ==> forall b :: b in r.value <==> b in bookings && IsHistory(b, nic, now)
    ensures r.Ok? ==> SortedBy(r.value, ReservationDateTime, true)
  {
    if !OwnerIsActive(owners, nic) then Err(ArgumentException(OwnerNotFound))
    else Ok(GetHistoryByEVOwnerNIC(bookings, nic, now))
  }

  /** `GetPendingBookingsCountAsync`. */
  function GetPendingBookingsCount(owners: seq<EVOwner>, bookings: seq<Booking>, nic: string): (r: Result<nat>)
    ensures r.Err? <==> !OwnerIsActive(owners, nic)
    ensures r.Err? ==> r.error == ArgumentException(OwnerNotFound)
    ensures r.Ok? ==> r.value == |Filter(bookings, (b: Booking) => b.EVOwnerNIC == nic && b.Status == Pending)|
  {
    if !OwnerIsActive(owners, nic) then Err(ArgumentException(OwnerNotFound))
    else Ok(GetPendingCountByEVOwnerNIC(bookings, nic))
  }

  /** `GetApprovedBookingsCountAsync`. */
  function GetApprovedBookingsCount(owners: seq<EVOwner>, bookings: seq<Booking>, nic: string): (r: Result<nat>)
    ensures r.Err? <==> !OwnerIsActive(owners, nic)
    ensures r.Err? ==> r.error == ArgumentException(OwnerNotFound)
    ensures r.Ok? ==> r.value == |Filter(bookings, (b: Booking) => b.EVOwnerNIC == nic && b.Status == Approved)|
  {
    if !OwnerIsActive(owners, nic) then Err(ArgumentException(OwnerNotFound))
    else Ok(GetApprovedCountByEVOwnerNIC(bookings, nic))
  }

  /** The EV owners collection, read by the owner check. */
  class EVOwnerRepository {
    var owners: seq<EVOwner>

    constructor (initial: seq<EVOwner>)
      ensures owners == initial
    {
      owners := initial;
    }
  }

  class BookingService {
    const bookingRepository: BookingRepository
    const evOwnerRepository: EVOwnerRepository

    constructor (bookingRepository: BookingRepository, evOwnerRepository: EVOwnerRepository)
      ensures this.bookingRepository == bookingRepository
      ensures this.evOwnerRepository == evOwnerRepository
    {
      this.bookingRepository := bookingRepository;
      this.evOwnerRepository := evOwnerRepository;
    }

    /** `CreateBookingAsync`: the 7-day window first, then the owner check, then
        the insert. There is no check that the slot is free. */
    method CreateBooking(booking: Booking, now: Instant, generatedId: string) returns (r: Result<Booking>)
      requires bookingRepository.Valid() && now <= MaxInstant
      requires generatedId != "" && FindById(bookingRepository.bookings, generatedId).None?
      modifies bookingRepository
      ensures bookingRepository.Valid()
      ensures !IsReservationWithinAllowedPeriod(booking.StartTime, now) ==>
        r == Err(InvalidOperationException(OutsideWindow))
      ensures (IsReservationWithinAllowedPeriod(booking.StartTime, now) &&
               !OwnerIsActive(evOwnerRepository.owners, booking.EVOwnerNIC)) ==>
        r == Err(ArgumentException(OwnerNotFound))
      ensures r.Err? ==> bookingRepository.bookings == old(bookingRepository.bookings)
      ensures r.Ok? ==>
        IsReservationWithinAllowedPeriod(booking.StartTime, now) &&
        OwnerIsActive(evOwnerRepository.owners, booking.EVOwnerNIC) &&
        r.value == booking.(Id := r.value.Id, BookingReference := Reference(now)) &&
        bookingRepository.bookings == old(bookingRepository.bookings) + [r.value]
      ensures IsReservationWithinAllowedPeriod(booking.StartTime, now) &&
              OwnerIsActive(evOwnerRepository.owners, booking.EVOwnerNIC) ==>
        var id := if booking.Id == "" then generatedId else booking.Id;
        if FindById(old(bookingRepository.bookings), id).Some? then
          r == Err(Database(DuplicateKey))
        else
          r == Ok(booking.(Id := id, BookingReference := Reference(now)))
    {
      if !IsReservationWithinAllowedPeriod(booking.StartTime, now) {
        return Err(InvalidOperationException(OutsideWindow));
      }
      if !OwnerIsActive(evOwnerRepository.owners, booking.EVOwnerNIC) {
        return Err(ArgumentException(OwnerNotFound));
      }
      r := bookingRepository.Create(booking, now, generatedId);
    }

    /** `UpdateBookingAsync`: the stored booking must exist and start at least
        12 hours from now; a changed start must lie in the 7-day window. The
        new record replaces the stored one under `id`. */
    method UpdateBooking(id: string, booking: Booking, now: Instant) returns (r: Result<Booking>)
      requires bookingRepository.Valid()
      modifies bookingRepository
      ensures bookingRepository.Valid()
      ensures FindById(old(bookingRepository.bookings), id).None? ==>
        r == Err(ArgumentException(BookingNotFound))
      ensures FindById(old(bookingRepository.bookings), id).Some? ==>
        var existing := FindById(old(bookingRepository.bookings), id).value;
        if !CanModifyBooking(existing.StartTime, now) then
          r == Err(InvalidOperationException(ModifyTooLate))
        else if booking.StartTime != existing.StartTime &&
                !IsReservationWithinAllowedPeriod(booking.StartTime, now) then
          r == Err(InvalidOperationException(OutsideWindow))
        else
          r == Ok(booking.(Id := id, UpdatedAt := now))
      ensures r.Err? ==> bookingRepository.bookings == old(bookingRepository.bookings)
      ensures r.Ok? ==>
        bookingRepository.bookings == ReplaceFirst(old(bookingRepository.bookings), HasId(id), r.value) &&
        FindById(bookingRepository.bookings, id) == Some(r.value) &&
        forall other :: other != id ==>
          FindById(bookingRepository.bookings, other) == FindById(old(bookingRepository.bookings), other)
    {
      var existing := FindById(bookingRepository.bookings, id);
      if existing.None? {
        return Err(ArgumentException(BookingNotFound));
      }
      if !CanModifyBooking(existing.value.StartTime, now) {
        return Err(InvalidOperationException(ModifyTooLate));
      }
      if booking.StartTime != existing.value.StartTime {
        if !IsReservationWithinAllowedPeriod(booking.StartTime, now) {
          return Err(InvalidOperationException(OutsideWindow));
        }
      }
      var toStore := booking.(Id := id);
      var stored := bookingRepository.Update(id, toStore, now);
      r := Ok(stored);
    }

    /** `CancelBookingAsync`: deletes the booking when its start is at least
        12 hours away; its status is not looked at. */
    method CancelBooking(id: string, now: Instant) returns (r: Result<bool>)
      requires bookingRepository.Valid()
      modifies bookingRepository
      ensures bookingRepository.Valid()
      ensures FindById(old(bookingRepository.bookings), id).None? ==>
        r == Err(ArgumentException(BookingNotFound))
      ensures FindById(old(bookingRepository.bookings), id).Some? ==>
        if CanModifyBooking(FindById(old(bookingRepository.bookings), id).value.StartTime, now) then
          r == Ok(true)
        else
          r == Err(InvalidOperationException(CancelTooLate))
      ensures r.Err? ==> bookingRepository.bookings == old(bookingRepository.bookings)
      ensures r.Ok? ==>
        bookingRepository.bookings == RemoveFirst(old(bookingRepository.bookings), HasId(id)) &&
        |bookingRepository.bookings| == |old(bookingRepository.bookings)| - 1 &&
        FindById(bookingRepository.bookings, id).None? &&
        forall other :: other != id ==>
          FindById(bookingRepository.bookings, other) == FindById(old(bookingRepository.bookings), other)
    {
      var booking := FindById(bookingRepository.bookings, id);
      if booking.None? {
        return Err(ArgumentException(BookingNotFound));
      }
      if !CanModifyBooking(booking.value.StartTime, now) {
        return Err(InvalidOperationException(CancelTooLate));
      }
      bookingRepository.Delete(id);
      r := Ok(true);
    }
  }
}
