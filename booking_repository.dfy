/** The bookings collection (Repositories/BookingRepository.cs): the stored
    documents in store order, the owner queries over them, and the insert,
    replace and delete that stamp `BookingReference` and `UpdatedAt`. */
module BookingStore {
  import opened Common
  import opened Clock
  import opened Collections
  import opened Models
  import opened Keyed

  function BookingId(b: Booking): string {
    b.Id
  }

  function HasId(id: string): Booking -> bool {
    KeyIs(BookingId, id)
  }

  /** `_id` is unique in the collection. */
  ghost predicate UniqueIds(bookings: seq<Booking>) {
    UniqueKeys(bookings, BookingId)
  }

  /** `GetByIdAsync`: the stored booking with that id, if any. */
  function FindById(bookings: seq<Booking>, id: string): (r: Option<Booking>)
    ensures r.None? <==> forall j :: 0 <= j < |bookings| ==> bookings[j].Id != id
    ensures r.Some? ==> r.value in bookings && r.value.Id == id
  {
    Lookup(bookings, BookingId, id)
  }

  /** `"EVB"` followed by the creation instant as `yyyyMMddHHmmss`. */
  function Reference(now: Instant): (r: string)
    requires now <= MaxInstant
    ensures |r| == 17 && r[..3] == "EVB" && r[3..] == Stamp(now)
  {
    "EVB" + Stamp(now)
  }

  /** The reference depends on the creation second only: two creations in the
      same second get the same reference. */
  lemma SameSecondSameReference(t1: Instant, t2: Instant)
    requires t1 <= MaxInstant && t2 <= MaxInstant
    requires t1 / MsPerSecond == t2 / MsPerSecond
    ensures Reference(t1) == Reference(t2)
  {
  }

  // ---- queries ----

  predicate IsUpcoming(b: Booking, nic: string, now: Instant) {
    b.EVOwnerNIC == nic && ReservationDateTime(b) >= now && IsActiveStatus(b.Status)
  }

  predicate IsHistory(b: Booking, nic: string, now: Instant) {
    b.EVOwnerNIC == nic &&
    (ReservationDateTime(b) < now || b.Status == Completed || b.Status == Cancelled)
  }

  /** `GetUpcomingByEVOwnerNICAsync`: the owner's Pending or Approved bookings
      not yet begun, earliest first. */
  function GetUpcomingByEVOwnerNIC(bookings: seq<Booking>, nic: string, now: Instant): (r: seq<Booking>)
    ensures SortedBy(r, ReservationDateTime, false)
    ensures forall b :: b in r <==> b in bookings && IsUpcoming(b, nic, now)
    ensures multiset(r) == multiset(Filter(bookings, (b: Booking) => IsUpcoming(b, nic, now)))
  {
    var matching := Filter(bookings, (b: Booking) => IsUpcoming(b, nic, now));
    assert forall b :: b in matching <==> b in bookings && IsUpcoming(b, nic, now);
    SameElements(SortBy(matching, ReservationDateTime, false), matching);
    SortBy(matching, ReservationDateTime, false)
  }

  /** `GetHistoryByEVOwnerNICAsync`: the owner's past, completed or cancelled
      bookings, latest first. */
  function GetHistoryByEVOwnerNIC(bookings: seq<Booking>, nic: string, now: Instant): (r: seq<Booking>)
    ensures SortedBy(r, ReservationDateTime, true)
    ensures forall b :: b in r <==> b in bookings && IsHistory(b, nic, now)
    ensures multiset(r) == multiset(Filter(bookings, (b: Booking) => IsHistory(b, nic, now)))
  {
    var matching := Filter(bookings, (b: Booking) => IsHistory(b, nic, now));
    assert forall b :: b in matching <==> b in bookings && IsHistory(b, nic, now);
    SameElements(SortBy(matching, ReservationDateTime, true), matching);
    SortBy(matching, ReservationDateTime, true)
  }

  /** The owner's bookings in the given status, counted. */
  function CountByStatus(bookings: seq<Booking>, nic: string, status: string): (n: nat)
    ensures n == |Filter(bookings, (b: Booking) => b.EVOwnerNIC == nic && b.Status == status)|
  {
    CountIsFilterLength(bookings, (b: Booking) => b.EVOwnerNIC == nic && b.Status == status);
    Count(bookings, (b: Booking) => b.EVOwnerNIC == nic && b.Status == status)
  }

  /** `GetPendingCountByEVOwnerNICAsync`. */
  function GetPendingCountByEVOwnerNIC(bookings: seq<Booking>, nic: string): nat {
    CountByStatus(bookings, nic, Pending)
  }

  /** `GetApprovedCountByEVOwnerNICAsync`. */
  function GetApprovedCountByEVOwnerNIC(bookings: seq<Booking>, nic: string): nat {
    CountByStatus(bookings, nic, Approved)
  }

  /** `HasActiveBookingsForStationAsync`: some Pending or Approved booking is at the station. */
  function HasActiveBookingsForStation(bookings: seq<Booking>, stationId: string): (r: bool)
    ensures r <==> exists b :: b in bookings && b.ChargingStationId == stationId && IsActiveStatus(b.Status)
  {
    Exists(bookings, (b: Booking) => b.ChargingStationId == stationId && IsActiveStatus(b.Status))
  }

  // ---- repository calls whose bodies are not part of this model (assumed contracts) ----

  /** `GetBookingsByStationAndDateAsync`, assumed: every stored booking at the
      station whose `BookingDate` equals `date`, whatever its status, in store order. */
  function GetBookingsByStationAndDate(bookings: seq<Booking>, stationId: string, date: Instant): seq<Booking> {
    Filter(bookings, AtStationOn(stationId, date))
  }

  /** The filter of `GetBookingsByStationAndDateAsync`. */
  function AtStationOn(stationId: string, date: Instant): Booking -> bool {
    (b: Booking) => b.ChargingStationId == stationId && b.BookingDate == date
  }

  /** `b` holds the cell: that station, charging point, booking date and hour. */
  predicate OccupiesCell(b: Booking, stationId: string, point: int, date: Instant, slot: int) {
    b.ChargingStationId == stationId && b.ChargingPointNumber == point &&
    b.BookingDate == date && b.TimeSlot == slot
  }

  function HoldsCell(stationId: string, point: int, date: Instant, slot: int): Booking -> bool {
    (b: Booking) => OccupiesCell(b, stationId, point, date, slot)
  }

  /** Repository `IsTimeSlotAvailableAsync`, assumed: no stored booking, of any
      status, occupies that station, point, booking date and hour. */
  function IsCellFree(bookings: seq<Booking>, stationId: string, point: int, date: Instant, slot: int): (r: bool)
    ensures r <==> forall b :: b in bookings ==> !OccupiesCell(b, stationId, point, date, slot)
  {
    !Exists(bookings, HoldsCell(stationId, point, date, slot))
  }

  /** `GetByChargingStationIdAsync`, assumed: every stored booking at the station, in store order. */
  function GetByChargingStationId(bookings: seq<Booking>, stationId: string): seq<Booking> {
    Filter(bookings, (b: Booking) => b.ChargingStationId == stationId)
  }

  /** The bookings collection. */
  class BookingRepository {
    var bookings: seq<Booking>

    ghost predicate Valid()
      reads this
    {
      UniqueIds(bookings)
    }

    constructor (initial: seq<Booking>)
      requires UniqueIds(initial)
      ensures Valid() && bookings == initial
    {
      bookings := initial;
    }

    /** `CreateAsync`: stamps the reference, then inserts. An empty id is
        replaced by the store's generated id; an id already in use is refused
        and nothing is stored. */
    method Create(booking: Booking, now: Instant, generatedId: string) returns (r: Result<Booking>)
      requires Valid() && now <= MaxInstant
      requires generatedId != "" && FindById(bookings, generatedId).None?
      modifies this
      ensures Valid()
      ensures
        var id := if booking.Id == "" then generatedId else booking.Id;
        var stored := booking.(Id := id, BookingReference := Reference(now));
        if FindById(old(bookings), id).Some? then
          r == Err(Database(DuplicateKey)) && bookings == old(bookings)
        else
          r == Ok(stored) && bookings == old(bookings) + [stored]
      ensures r.Ok? ==> FindById(bookings, r.value.Id) == Some(r.value)
      ensures r.Ok? ==> forall other :: other != r.value.Id ==> FindById(bookings, other) == FindById(old(bookings), other)
    {
      var id := if booking.Id == "" then generatedId else booking.Id;
      var stored := booking.(Id := id, BookingReference := Reference(now));
      if FindById(bookings, id).Some? {
        r := Err(Database(DuplicateKey));
      } else {
        AppendEffect(bookings, BookingId, stored);
        bookings := bookings + [stored];
        r := Ok(stored);
      }
    }

    /** `UpdateAsync`: stamps `UpdatedAt`, then replaces the record with that id. */
    method Update(id: string, booking: Booking, now: Instant) returns (stored: Booking)
      requires Valid() && booking.Id == id
      modifies this
      ensures Valid()
      ensures stored == booking.(UpdatedAt := now)
      ensures bookings == ReplaceFirst(old(bookings), HasId(id), stored)
      ensures FindById(bookings, id) == if FindById(old(bookings), id).Some? then Some(stored) else None
      ensures forall other :: other != id ==> FindById(bookings, other) == FindById(old(bookings), other)
    {
      stored := booking.(UpdatedAt := now);
      ReplaceEffect(bookings, BookingId, id, stored);
      bookings := ReplaceFirst(bookings, HasId(id), stored);
    }

    /** `DeleteAsync`: removes the record with that id. */
    method Delete(id: string)
      requires Valid()
      modifies this
      ensures Valid()
      ensures bookings == RemoveFirst(old(bookings), HasId(id))
      ensures FindById(bookings, id).None?
      ensures forall other :: other != id ==> FindById(bookings, other) == FindById(old(bookings), other)
      ensures |bookings| == |old(bookings)| - (if FindById(old(bookings), id).Some? then 1 else 0)
    {
      RemoveEffect(bookings, BookingId, id);
      bookings := RemoveFirst(bookings, HasId(id));
    }
  }
}
