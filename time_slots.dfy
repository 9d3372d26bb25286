/** Hourly slots per charging point (Services/TimeSlotService.cs): the
    3 x 24 availability grid of a station on a day, its mobile and
    available-only views, the single-slot check, and booking a slot. A cell
    is taken when a stored booking at that station, point, booking date and
    hour exists, whatever its status. */
module TimeSlots {
  import opened Common
  import opened Clock
  import opened Decimal
  import opened Collections
  import opened Models
  import opened BookingStore
  import opened StationStore
  import StationRules

  const InvalidPointNumber := "Invalid charging point number. Must be 1, 2, or 3."
  const InvalidTimeSlot := "Invalid time slot. Must be between 0 and 23."
  const SlotTaken := "Time slot is not available."
  /** Minutes in a time-slot booking. */
  const SlotMinutes := 60

  /** `TimeSlotDTO`. */
  datatype SlotView = SlotView(
    Hour: int,
    TimeRange: string,
    IsAvailable: bool,
    BookedBy: Option<string>,
    BookingId: Option<string>)

  /** `ChargingPointSlotsDTO`. */
  datatype PointSlots = PointSlots(ChargingPointNumber: int, TimeSlots: seq<SlotView>)

  /** `StationAvailabilityDTO`. */
  datatype StationAvailability = StationAvailability(
    StationId: string,
    StationName: string,
    Date: Instant,
    ChargingPoints: seq<PointSlots>)

  /** `MobileTimeSlotDTO`, `MobileChargingPointSlotsDTO`, `MobileStationAvailabilityDTO`. */
  datatype MobileSlot = MobileSlot(hour: int, displayTime: string, isAvailable: bool)
  datatype MobilePointSlots = MobilePointSlots(chargingPointNumber: int, timeSlots: seq<MobileSlot>)
  datatype MobileStationAvailability = MobileStationAvailability(
    stationId: string,
    date: string,
    chargingPoints: seq<MobilePointSlots>)

  /** `CreateTimeSlotBookingDTO`. */
  datatype CreateTimeSlotBookingRequest = CreateTimeSlotBookingRequest(
    ChargingStationId: string,
    EVOwnerNIC: string,
    ChargingPointNumber: int,
    BookingDate: Instant,
    TimeSlot: int)

  predicate IsPointNumber(point: int) {
    1 <= point <= ChargingPointsPerStation
  }

  predicate IsHour(hour: int) {
    0 <= hour < HoursPerDay
  }

  /** `{hour:D2}:00`. */
  function HourLabel(hour: nat): (s: string)
    requires hour < 100
    ensures |s| == 5 && s[2..] == ":00"
    ensures AllDigits(s[..2]) && ValueOf(s[..2]) == hour
  {
    PadValue(hour, 2);
    var s := Pad(hour, 2) + ":00";
    assert s[..2] == Pad(hour, 2);
    s
  }

  /** `{hour:D2}:00 - {hour + 1:D2}:00`: the hour the slot starts and the next. */
  function TimeRange(hour: int): (s: string)
    requires IsHour(hour)
    ensures |s| == 13 && s[..5] == HourLabel(hour) && s[5..8] == " - " && s[8..] == HourLabel(hour + 1)
  {
    HourLabel(hour) + " - " + HourLabel(hour + 1)
  }

  function AtCell(point: int, hour: int): Booking -> bool {
    (b: Booking) => b.ChargingPointNumber == point && b.TimeSlot == hour
  }

  /** The booking the grid reports for a cell: the first of the day's station
      bookings on that point and hour. */
  function CellBooking(existing: seq<Booking>, point: int, hour: int): Option<Booking> {
    First(existing, AtCell(point, hour))
  }

  /** The booking that holds a cell: the first stored one, in store order. */
  function Holder(bookings: seq<Booking>, stationId: string, point: int, date: Instant, hour: int): (r: Option<Booking>)
    ensures r.None? <==> IsCellFree(bookings, stationId, point, date, hour)
    ensures r.Some? ==> r.value in bookings && OccupiesCell(r.value, stationId, point, date, hour)
  {
    First(bookings, HoldsCell(stationId, point, date, hour))
  }

  /** One cell of the grid, built from the day's bookings at the station. */
  function SlotFor(existing: seq<Booking>, point: int, hour: int): SlotView
    requires IsHour(hour)
  {
    var b := CellBooking(existing, point, hour);
    SlotView(hour, TimeRange(hour), b.None?,
             if b.Some? then Some(b.value.EVOwnerNIC) else None,
             if b.Some? then Some(b.value.Id) else None)
  }

  function PointRow(existing: seq<Booking>, point: int): seq<SlotView> {
    seq(HoursPerDay, h requires 0 <= h < HoursPerDay => SlotFor(existing, point, h))
  }

  function Grid(existing: seq<Booking>): seq<PointSlots> {
    seq(ChargingPointsPerStation, i requires 0 <= i < ChargingPointsPerStation =>
      PointSlots(i + 1, PointRow(existing, i + 1)))
  }

  /** The answer of `GetStationAvailabilityAsync` for a known station. */
  function Availability(station: ChargingStation, stationId: string, date: Instant, bookings: seq<Booking>)
    : StationAvailability
  {
    var day := Date(date);
    StationAvailability(stationId, station.Name, day, Grid(GetBookingsByStationAndDate(bookings, stationId, day)))
  }

  function MobileSlotFor(existing: seq<Booking>, point: int, hour: int): MobileSlot
    requires IsHour(hour)
  {
    MobileSlot(hour, HourLabel(hour), CellBooking(existing, point, hour).None?)
  }

  function MobileRow(existing: seq<Booking>, point: int): seq<MobileSlot> {
    seq(HoursPerDay, h requires 0 <= h < HoursPerDay => MobileSlotFor(existing, point, h))
  }

  function MobileGrid(existing: seq<Booking>): seq<MobilePointSlots> {
    seq(ChargingPointsPerStation, i requires 0 <= i < ChargingPointsPerStation =>
      MobilePointSlots(i + 1, MobileRow(existing, i + 1)))
  }

  /** The answer of `GetMobileStationAvailabilityAsync` for a known station. */
  function MobileAvailability(stationId: string, date: Instant, bookings: seq<Booking>): MobileStationAvailability
    requires date <= MaxInstant
  {
    var day := Date(date);
    MobileStationAvailability(stationId, IsoDate(day), MobileGrid(GetBookingsByStationAndDate(bookings, stationId, day)))
  }

  /** Where a cell sits in the grid: point `point` is row `point - 1`, and
      hour `hour` is that row's entry `hour`. */
  lemma GridCell(existing: seq<Booking>, point: int, hour: int)
    requires IsPointNumber(point) && IsHour(hour)
    ensures |Grid(existing)| == ChargingPointsPerStation
    ensures Grid(existing)[point - 1] == PointSlots(point, PointRow(existing, point))
    ensures |PointRow(existing, point)| == HoursPerDay
    ensures PointRow(existing, point)[hour] == SlotFor(existing, point, hour)
  {
  }

  lemma MobileGridCell(existing: seq<Booking>, point: int, hour: int)
    requires IsPointNumber(point) && IsHour(hour)
    ensures |MobileGrid(existing)| == ChargingPointsPerStation
    ensures MobileGrid(existing)[point - 1] == MobilePointSlots(point, MobileRow(existing, point))
    ensures |MobileRow(existing, point)| == HoursPerDay
    ensures MobileRow(existing, point)[hour] == MobileSlotFor(existing, point, hour)
  {
  }

  /** A row built hour by hour is the grid's row. */
  lemma RowBuilt(slots: seq<SlotView>, existing: seq<Booking>, point: int)
    requires |slots| == HoursPerDay
    requires forall h :: 0 <= h < HoursPerDay ==> slots[h] == SlotFor(existing, point, h)
    ensures slots == PointRow(existing, point)
  {
  }

  lemma MobileRowBuilt(slots: seq<MobileSlot>, existing: seq<Booking>, point: int)
    requires |slots| == HoursPerDay
    requires forall h :: 0 <= h < HoursPerDay ==> slots[h] == MobileSlotFor(existing, point, h)
    ensures slots == MobileRow(existing, point)
  {
  }

  /** A grid built point by point is the grid. */
  lemma GridBuilt(points: seq<PointSlots>, existing: seq<Booking>)
    requires |points| == ChargingPointsPerStation
    requires forall i :: 0 <= i < ChargingPointsPerStation ==> points[i] == PointSlots(i + 1, PointRow(existing, i + 1))
    ensures points == Grid(existing)
  {
  }

  lemma MobileGridBuilt(points: seq<MobilePointSlots>, existing: seq<Booking>)
    requires |points| == ChargingPointsPerStation
    requires forall i :: 0 <= i < ChargingPointsPerStation ==>
      points[i] == MobilePointSlots(i + 1, MobileRow(existing, i + 1))
    ensures points == MobileGrid(existing)
  {
  }

  /** The mobile cell and the full cell at one point and hour agree. */
  lemma MobileCellAgrees(existing: seq<Booking>, point: int, hour: int)
    requires IsPointNumber(point) && IsHour(hour)
    ensures
      var m := MobileGrid(existing)[point - 1];
      var f := Grid(existing)[point - 1];
      m.chargingPointNumber == f.ChargingPointNumber &&
      |m.timeSlots| == |f.TimeSlots| == HoursPerDay &&
      m.timeSlots[hour].hour == f.TimeSlots[hour].Hour &&
      m.timeSlots[hour].displayTime == f.TimeSlots[hour].TimeRange[..5] &&
      m.timeSlots[hour].isAvailable == f.TimeSlots[hour].IsAvailable
  {
    GridCell(existing, point, hour);
    MobileGridCell(existing, point, hour);
  }

  predicate IsOpen(v: SlotView) {
    v.IsAvailable
  }

  function SlotHour(v: SlotView): int {
    v.Hour
  }

  /** Each point of the grid with only its available slots, in hour order. */
  function AvailableOnly(points: seq<PointSlots>): seq<PointSlots> {
    seq(|points|, i requires 0 <= i < |points| =>
      PointSlots(points[i].ChargingPointNumber, Filter(points[i].TimeSlots, IsOpen)))
  }

  /** `IsTimeSlotAvailableAsync`: a point outside 1..3 or an hour outside
      0..23 is never available; otherwise the cell is free on exactly the
      `date` given (it is not truncated to its day). */
  function IsTimeSlotAvailable(bookings: seq<Booking>, stationId: string, point: int, date: Instant, hour: int): (r: bool)
    ensures r <==> IsPointNumber(point) && IsHour(hour) && Holder(bookings, stationId, point, date, hour).None?
  {
    if point < 1 || point > ChargingPointsPerStation then false
    else if hour < 0 || hour >= HoursPerDay then false
    else IsCellFree(bookings, stationId, point, date, hour)
  }

  /** The booking a grid cell reports is the one that holds the cell: the
      station-and-day query keeps store order. */
  lemma CellBookingIsHolder(bookings: seq<Booking>, stationId: string, day: Instant, point: int, hour: int)
    ensures CellBooking(GetBookingsByStationAndDate(bookings, stationId, day), point, hour) ==
      Holder(bookings, stationId, point, day, hour)
  {
    FirstOfFilter(bookings, AtStationOn(stationId, day), AtCell(point, hour), HoldsCell(stationId, point, day, hour));
  }

  /** The grid reads each cell off the stored bookings: the grid has points
      1..3 with hours 0..23 in order; a cell is available exactly when no
      stored booking holds it, and a taken cell names the owner and id of the
      first stored booking that holds it. */
  lemma CellMeaning(bookings: seq<Booking>, stationId: string, date: Instant, point: int, hour: int)
    requires IsPointNumber(point) && IsHour(hour)
    ensures
      var day := Date(date);
      var grid := Grid(GetBookingsByStationAndDate(bookings, stationId, day));
      |grid| == ChargingPointsPerStation && grid[point - 1].ChargingPointNumber == point &&
      |grid[point - 1].TimeSlots| == HoursPerDay &&
      var cell := grid[point - 1].TimeSlots[hour];
      var h := Holder(bookings, stationId, point, day, hour);
      cell.Hour == hour && cell.TimeRange == TimeRange(hour) &&
      (cell.IsAvailable <==> IsCellFree(bookings, stationId, point, day, hour)) &&
      cell.BookedBy == (if h.Some? then Some(h.value.EVOwnerNIC) else None) &&
      cell.BookingId == (if h.Some? then Some(h.value.Id) else None)
  {
    var day := Date(date);
    var existing := GetBookingsByStationAndDate(bookings, stationId, day);
    var grid := Grid(existing);
    GridCell(existing, point, hour);
    CellBookingIsHolder(bookings, stationId, day, point, hour);
  }

  /** The single-slot check agrees with the grid for a date at midnight, and
      says `false` for every cell outside it. */
  lemma CheckAgreesWithGrid(bookings: seq<Booking>, stationId: string, day: Instant, point: int, hour: int)
    requires day % MsPerDay == 0
    ensures IsTimeSlotAvailable(bookings, stationId, point, day, hour) <==>
      IsPointNumber(point) && IsHour(hour) &&
      Grid(GetBookingsByStationAndDate(bookings, stationId, day))[point - 1].TimeSlots[hour].IsAvailable
  {
    if IsPointNumber(point) && IsHour(hour) {
      CellMeaning(bookings, stationId, day, point, hour);
      assert Date(day) == day;
    }
  }

  /** The mobile view shows the same cells as the full one: the same hours and
      availability, each label the start of the full time range, and the
      day as `yyyy-MM-dd`. */
  lemma MobileAgrees(bookings: seq<Booking>, station: ChargingStation, stationId: string, date: Instant)
    requires date <= MaxInstant
    ensures
      var full := Availability(station, stationId, date, bookings);
      var mobile := MobileAvailability(stationId, date, bookings);
      mobile.stationId == full.StationId && mobile.date == IsoDate(full.Date) &&
      |mobile.chargingPoints| == |full.ChargingPoints| &&
      forall i, h :: 0 <= i < |full.ChargingPoints| && 0 <= h < HoursPerDay ==>
        mobile.chargingPoints[i].chargingPointNumber == full.ChargingPoints[i].ChargingPointNumber &&
        |mobile.chargingPoints[i].timeSlots| == |full.ChargingPoints[i].TimeSlots| == HoursPerDay &&
        mobile.chargingPoints[i].timeSlots[h].hour == full.ChargingPoints[i].TimeSlots[h].Hour &&
        mobile.chargingPoints[i].timeSlots[h].displayTime == full.ChargingPoints[i].TimeSlots[h].TimeRange[..5] &&
        mobile.chargingPoints[i].timeSlots[h].isAvailable == full.ChargingPoints[i].TimeSlots[h].IsAvailable
  {
    MobileGridAgrees(GetBookingsByStationAndDate(bookings, stationId, Date(date)));
  }

  /** The mobile grid and the full grid agree cell by cell. */
  lemma MobileGridAgrees(existing: seq<Booking>)
    ensures |MobileGrid(existing)| == |Grid(existing)| == ChargingPointsPerStation
    ensures forall i, h :: 0 <= i < ChargingPointsPerStation && 0 <= h < HoursPerDay ==>
      var m := MobileGrid(existing)[i];
      var f := Grid(existing)[i];
      m.chargingPointNumber == f.ChargingPointNumber &&
      |m.timeSlots| == |f.TimeSlots| == HoursPerDay &&
      m.timeSlots[h].hour == f.TimeSlots[h].Hour &&
      m.timeSlots[h].displayTime == f.TimeSlots[h].TimeRange[..5] &&
      m.timeSlots[h].isAvailable == f.TimeSlots[h].IsAvailable
  {
    forall i, h | 0 <= i < ChargingPointsPerStation && 0 <= h < HoursPerDay
      ensures
        var m := MobileGrid(existing)[i];
        var f := Grid(existing)[i];
        m.chargingPointNumber == f.ChargingPointNumber &&
        |m.timeSlots| == |f.TimeSlots| == HoursPerDay &&
        m.timeSlots[h].hour == f.TimeSlots[h].Hour &&
        m.timeSlots[h].displayTime == f.TimeSlots[h].TimeRange[..5] &&
        m.timeSlots[h].isAvailable == f.TimeSlots[h].IsAvailable
    {
      MobileCellAgrees(existing, i + 1, h);
    }
  }

  /** The available-only view lists, for each point of the grid, exactly the
      hours no stored booking holds. */
  lemma AvailableHours(bookings: seq<Booking>, stationId: string, date: Instant, point: int, hour: int)
    requires IsPointNumber(point)
    ensures
      var day := Date(date);
      var points := AvailableOnly(Grid(GetBookingsByStationAndDate(bookings, stationId, day)));
      |points| == ChargingPointsPerStation && points[point - 1].ChargingPointNumber == point &&
      ((exists v :: v in points[point - 1].TimeSlots && v.Hour == hour) <==>
        IsHour(hour) && IsCellFree(bookings, stationId, point, day, hour))
  {
    var day := Date(date);
    var existing := GetBookingsByStationAndDate(bookings, stationId, day);
    var grid := Grid(existing);
    GridCell(existing, point, 0);
    var open := AvailableOnly(grid)[point - 1].TimeSlots;
    assert open == Filter(grid[point - 1].TimeSlots, IsOpen);
    if v :| v in open && v.Hour == hour {
      OpenSlotIsFree(bookings, stationId, day, point, v);
    }
    if IsHour(hour) && IsCellFree(bookings, stationId, point, day, hour) {
      FreeSlotIsOpen(bookings, stationId, day, point, hour);
    }
  }

  /** One point's row of the grid, slot by slot. */
  lemma RowShape(existing: seq<Booking>, point: int)
    requires IsPointNumber(point)
    ensures |Grid(existing)| == ChargingPointsPerStation
    ensures Grid(existing)[point - 1].ChargingPointNumber == point
    ensures |Grid(existing)[point - 1].TimeSlots| == HoursPerDay
    ensures forall h :: 0 <= h < HoursPerDay ==> Grid(existing)[point - 1].TimeSlots[h] == SlotFor(existing, point, h)
  {
    GridCell(existing, point, 0);
  }

  /** A slot the available-only view keeps is a free cell at its hour. */
  lemma OpenSlotIsFree(bookings: seq<Booking>, stationId: string, day: Instant, point: int, v: SlotView)
    requires IsPointNumber(point)
    requires v in Filter(Grid(GetBookingsByStationAndDate(bookings, stationId, day))[point - 1].TimeSlots, IsOpen)
    ensures IsHour(v.Hour) && IsCellFree(bookings, stationId, point, day, v.Hour)
  {
    var existing := GetBookingsByStationAndDate(bookings, stationId, day);
    var row := Grid(existing)[point - 1].TimeSlots;
    RowShape(existing, point);
    var k :| 0 <= k < |row| && row[k] == v;
    assert v == SlotFor(existing, point, k);
    CellBookingIsHolder(bookings, stationId, day, point, k);
  }

  /** A free cell is kept by the available-only view, at its hour. */
  lemma FreeSlotIsOpen(bookings: seq<Booking>, stationId: string, day: Instant, point: int, hour: int)
    requires IsPointNumber(point) && IsHour(hour) && IsCellFree(bookings, stationId, point, day, hour)
    ensures
      var row := Grid(GetBookingsByStationAndDate(bookings, stationId, day))[point - 1].TimeSlots;
      row[hour] in Filter(row, IsOpen) && row[hour].Hour == hour
  {
    var existing := GetBookingsByStationAndDate(bookings, stationId, day);
    RowShape(existing, point);
    CellBookingIsHolder(bookings, stationId, day, point, hour);
    assert Grid(existing)[point - 1].TimeSlots[hour] == SlotFor(existing, point, hour);
  }

  /** The requested date is truncated to its day: two instants on the same
      day give the same availability. */
  lemma SameDaySameAvailability(station: ChargingStation, stationId: string, d1: Instant, d2: Instant,
                                bookings: seq<Booking>)
    requires d1 / MsPerDay == d2 / MsPerDay
    ensures Availability(station, stationId, d1, bookings) == Availability(station, stationId, d2, bookings)
  {
    SameDate(d1, d2);
  }

  /** Each point's available-only list keeps the grid's hour order, and each
      of its slots is the grid's cell for that hour. */
  lemma AvailableInHourOrder(bookings: seq<Booking>, stationId: string, date: Instant, point: int)
    requires IsPointNumber(point)
    ensures
      var grid := Grid(GetBookingsByStationAndDate(bookings, stationId, Date(date)));
      var open := AvailableOnly(grid)[point - 1].TimeSlots;
      (forall i, j :: 0 <= i < j < |open| ==> open[i].Hour < open[j].Hour) &&
      (forall i :: 0 <= i < |open| ==> IsHour(open[i].Hour) && open[i] == grid[point - 1].TimeSlots[open[i].Hour])
  {
    var existing := GetBookingsByStationAndDate(bookings, stationId, Date(date));
    RowShape(existing, point);
    var row := Grid(existing)[point - 1].TimeSlots;
    assert AvailableOnly(Grid(existing))[point - 1].TimeSlots == Filter(row, IsOpen);
    OpenInHourOrder(row);
  }

  /** Keeping the open slots of a row whose entry `h` is hour `h` keeps the
      hours increasing, and each kept slot is the row's entry for its hour. */
  lemma OpenInHourOrder(row: seq<SlotView>)
    requires |row| == HoursPerDay && forall h :: 0 <= h < |row| ==> row[h].Hour == h
    ensures var open := Filter(row, IsOpen);
      (forall i, j :: 0 <= i < j < |open| ==> open[i].Hour < open[j].Hour) &&
      (forall i :: 0 <= i < |open| ==> IsHour(open[i].Hour) && open[i] == row[open[i].Hour])
  {
    assert forall h :: 0 <= h < |row| ==> SlotHour(row[h]) == h;
    FilterKeepsIncreasing(row, IsOpen, SlotHour);
    var open := Filter(row, IsOpen);
    forall i | 0 <= i < |open|
      ensures IsHour(open[i].Hour) && open[i] == row[open[i].Hour]
    {
      assert open[i] in row;
      var k :| 0 <= k < |row| && row[k] == open[i];
    }
  }

  /** No two stored bookings hold the same cell. */
  ghost predicate NoDoubleBooking(bookings: seq<Booking>) {
    forall i, j :: 0 <= i < j < |bookings| ==>
      !OccupiesCell(bookings[j], bookings[i].ChargingStationId, bookings[i].ChargingPointNumber,
                    bookings[i].BookingDate, bookings[i].TimeSlot)
  }

  /** `b` is the booking a slot request made at `now` stores: an Approved
      one-hour booking of the requested owner, station, point and hour,
      on the day the requested date falls in, with a fresh reference and no
      QR code yet. */
  predicate IsSlotBooking(b: Booking, request: CreateTimeSlotBookingRequest, now: Instant)
    requires now <= MaxInstant
  {
    b.BookingReference == Reference(now) &&
    b.EVOwnerNIC == request.EVOwnerNIC && b.ChargingStationId == request.ChargingStationId &&
    b.ChargingPointNumber == request.ChargingPointNumber && b.TimeSlot == request.TimeSlot &&
    b.BookingDate == Date(request.BookingDate) && Date(b.StartTime) == b.BookingDate &&
    b.StartTime == b.BookingDate + b.TimeSlot * MsPerHour && b.EndTime == b.StartTime + MsPerHour &&
    b.DurationMinutes == SlotMinutes && b.Status == Approved && b.QRCodeData == "" &&
    b.CreatedAt == now && b.UpdatedAt == now
  }

  /** Storing a booking on a free cell keeps every cell held at most once,
      and the cell is then taken. */
  lemma {:induction false} BookFreeCell(bookings: seq<Booking>, b: Booking)
    requires IsCellFree(bookings, b.ChargingStationId, b.ChargingPointNumber, b.BookingDate, b.TimeSlot)
    ensures !IsCellFree(bookings + [b], b.ChargingStationId, b.ChargingPointNumber, b.BookingDate, b.TimeSlot)
    ensures NoDoubleBooking(bookings) ==> NoDoubleBooking(bookings + [b])
  {
    var s := bookings + [b];
    assert s[|bookings|] == b;
    assert OccupiesCell(b, b.ChargingStationId, b.ChargingPointNumber, b.BookingDate, b.TimeSlot);
    if NoDoubleBooking(bookings) {
      forall i, j | 0 <= i < j < |s|
        ensures !OccupiesCell(s[j], s[i].ChargingStationId, s[i].ChargingPointNumber, s[i].BookingDate, s[i].TimeSlot)
      {
        if j == |bookings| {
          assert s[i] in bookings;
        }
      }
    }
  }

  /** A slot starts `hour` hours into its booking day and ends on that day. */
  lemma SlotWithinDay(day: Instant, hour: int)
    requires day % MsPerDay == 0 && IsHour(hour)
    ensures Date(day + hour * MsPerHour) == day
    ensures day + (hour + 1) * MsPerHour <= day + MsPerDay
  {
    var t := day + hour * MsPerHour;
    assert 0 <= hour * MsPerHour < MsPerDay;
    assert t % MsPerDay == hour * MsPerHour by {
      assert t == day / MsPerDay * MsPerDay + hour * MsPerHour;
    }
  }

  /** The booking a slot request stores under `id`. */
  function SlotBooking(request: CreateTimeSlotBookingRequest, now: Instant, id: string): Booking
    requires now <= MaxInstant && IsHour(request.TimeSlot)
  {
    var day := Date(request.BookingDate);
    var start := day + request.TimeSlot * MsPerHour;
    Booking(id, Reference(now), request.EVOwnerNIC, request.ChargingStationId, request.ChargingPointNumber,
            day, request.TimeSlot, start, start + MsPerHour, SlotMinutes, Approved, "", now, now)
  }

  /** For a valid hour, that booking has the shape a slot booking must have. */
  lemma SlotBookingFor(request: CreateTimeSlotBookingRequest, now: Instant, id: string)
    requires now <= MaxInstant && IsHour(request.TimeSlot)
    ensures IsSlotBooking(SlotBooking(request, now, id), request, now)
  {
    SlotWithinDay(Date(request.BookingDate), request.TimeSlot);
  }

  /** The inner loop of `GetStationAvailabilityAsync`: one point's slots, hour by hour. */
  method BuildRow(existing: seq<Booking>, pointNumber: int) returns (slots: seq<SlotView>)
    ensures slots == PointRow(existing, pointNumber)
  {
    slots := [];
    var hour := 0;
    while hour < HoursPerDay
      invariant 0 <= hour <= HoursPerDay
      invariant |slots| == hour
      invariant forall h :: 0 <= h < hour ==> slots[h] == SlotFor(existing, pointNumber, h)
    {
      slots := slots + [SlotFor(existing, pointNumber, hour)];
      hour := hour + 1;
    }
    RowBuilt(slots, existing, pointNumber);
  }

  /** The inner loop of `GetMobileStationAvailabilityAsync`. */
  method BuildMobileRow(existing: seq<Booking>, pointNumber: int) returns (slots: seq<MobileSlot>)
    ensures slots == MobileRow(existing, pointNumber)
  {
    slots := [];
    var hour := 0;
    while hour < HoursPerDay
      invariant 0 <= hour <= HoursPerDay
      invariant |slots| == hour
      invariant forall h :: 0 <= h < hour ==> slots[h] == MobileSlotFor(existing, pointNumber, h)
    {
      slots := slots + [MobileSlotFor(existing, pointNumber, hour)];
      hour := hour + 1;
    }
    MobileRowBuilt(slots, existing, pointNumber);
  }

  /** The loops of `GetStationAvailabilityAsync`: the grid, point by point. */
  method BuildGrid(existing: seq<Booking>) returns (points: seq<PointSlots>)
    ensures points == Grid(existing)
  {
    points := [];
    var pointNumber := 1;
    while pointNumber <= ChargingPointsPerStation
      invariant 1 <= pointNumber <= ChargingPointsPerStation + 1
      invariant |points| == pointNumber - 1
      invariant forall i :: 0 <= i < |points| ==> points[i] == PointSlots(i + 1, PointRow(existing, i + 1))
    {
      var slots := BuildRow(existing, pointNumber);
      points := points + [PointSlots(pointNumber, slots)];
      pointNumber := pointNumber + 1;
    }
    GridBuilt(points, existing);
  }

  /** The loops of `GetMobileStationAvailabilityAsync`. */
  method BuildMobileGrid(existing: seq<Booking>) returns (points: seq<MobilePointSlots>)
    ensures points == MobileGrid(existing)
  {
    points := [];
    var pointNumber := 1;
    while pointNumber <= ChargingPointsPerStation
      invariant 1 <= pointNumber <= ChargingPointsPerStation + 1
      invariant |points| == pointNumber - 1
      invariant forall i :: 0 <= i < |points| ==> points[i] == MobilePointSlots(i + 1, MobileRow(existing, i + 1))
    {
      var slots := BuildMobileRow(existing, pointNumber);
      points := points + [MobilePointSlots(pointNumber, slots)];
      pointNumber := pointNumber + 1;
    }
    MobileGridBuilt(points, existing);
  }

  class TimeSlotService {
    const bookingRepository: BookingRepository
    const stationRepository: ChargingStationRepository

    constructor (bookingRepository: BookingRepository, stationRepository: ChargingStationRepository)
      ensures this.bookingRepository == bookingRepository && this.stationRepository == stationRepository
    {
      this.bookingRepository := bookingRepository;
      this.stationRepository := stationRepository;
    }

    /** `GetStationAvailabilityAsync`: an unknown station is an
        `ArgumentException`; otherwise the grid for the day `date` falls in,
        built point by point and hour by hour. */
    method GetStationAvailability(stationId: string, date: Instant) returns (r: Result<StationAvailability>)
      ensures FindStation(stationRepository.stations, stationId).None? ==>
        r == Err(ArgumentException(StationRules.StationNotFound))
      ensures FindStation(stationRepository.stations, stationId).Some? ==>
        r == Ok(Availability(FindStation(stationRepository.stations, stationId).value, stationId, date,
                             bookingRepository.bookings))
    {
      var station := FindStation(stationRepository.stations, stationId);
      if station.None? {
        return Err(ArgumentException(StationRules.StationNotFound));
      }
      var day := Date(date);
      var existing := GetBookingsByStationAndDate(bookingRepository.bookings, stationId, day);
      var points := BuildGrid(existing);
      r := Ok(StationAvailability(stationId, station.value.Name, day, points));
    }

    /** `GetMobileStationAvailabilityAsync`: the same grid with hour labels
        and the day as text. */
    method GetMobileStationAvailability(stationId: string, date: Instant) returns (r: Result<MobileStationAvailability>)
      requires date <= MaxInstant
      ensures FindStation(stationRepository.stations, stationId).None? ==>
        r == Err(ArgumentException(StationRules.StationNotFound))
      ensures FindStation(stationRepository.stations, stationId).Some? ==>
        r == Ok(MobileAvailability(stationId, date, bookingRepository.bookings))
    {
      var station := FindStation(stationRepository.stations, stationId);
      if station.None? {
        return Err(ArgumentException(StationRules.StationNotFound));
      }
      var day := Date(date);
      var existing := GetBookingsByStationAndDate(bookingRepository.bookings, stationId, day);
      var points := BuildMobileGrid(existing);
      r := Ok(MobileStationAvailability(stationId, IsoDate(day), points));
    }

    /** `GetAvailableTimeSlotsAsync`: every point of the grid, each keeping
        only its available slots. */
    method GetAvailableTimeSlots(stationId: string, date: Instant) returns (r: Result<seq<PointSlots>>)
      ensures FindStation(stationRepository.stations, stationId).None? ==>
        r == Err(ArgumentException(StationRules.StationNotFound))
      ensures FindStation(stationRepository.stations, stationId).Some? ==>
        r == Ok(AvailableOnly(Grid(GetBookingsByStationAndDate(bookingRepository.bookings, stationId, Date(date)))))
    {
      var availability := GetStationAvailability(stationId, date);
      if availability.Err? {
        return Err(availability.error);
      }
      var points := availability.value.ChargingPoints;
      var available: seq<PointSlots> := [];
      var i := 0;
      while i < |points|
        invariant 0 <= i <= |points|
        invariant |available| == i
        invariant forall k :: 0 <= k < i ==>
          available[k] == PointSlots(points[k].ChargingPointNumber, Filter(points[k].TimeSlots, IsOpen))
      {
        available := available + [PointSlots(points[i].ChargingPointNumber, Filter(points[i].TimeSlots, IsOpen))];
        i := i + 1;
      }
      assert available == AvailableOnly(points);
      r := Ok(available);
    }

    /** `CreateTimeSlotBookingAsync`: the point and hour are checked, then the
        cell on the requested day; a free cell becomes an Approved one-hour
        booking on that day and hour. The station itself is not looked up. */
    method CreateTimeSlotBooking(request: CreateTimeSlotBookingRequest, now: Instant, generatedId: string)
      returns (r: Result<Booking>)
      requires bookingRepository.Valid() && now <= MaxInstant && request.BookingDate <= MaxInstant
      requires generatedId != "" && FindById(bookingRepository.bookings, generatedId).None?
      modifies bookingRepository
      ensures bookingRepository.Valid()
      ensures r.Err? ==> bookingRepository.bookings == old(bookingRepository.bookings)
      ensures !IsPointNumber(request.ChargingPointNumber) ==> r == Err(ArgumentException(InvalidPointNumber))
      ensures IsPointNumber(request.ChargingPointNumber) && !IsHour(request.TimeSlot) ==>
        r == Err(ArgumentException(InvalidTimeSlot))
      ensures
        var day := Date(request.BookingDate);
        IsPointNumber(request.ChargingPointNumber) && IsHour(request.TimeSlot) ==>
        if !IsCellFree(old(bookingRepository.bookings), request.ChargingStationId, request.ChargingPointNumber,
                       day, request.TimeSlot) then
          r == Err(InvalidOperationException(SlotTaken))
        else if day + request.TimeSlot * MsPerHour + MsPerHour > MaxInstant then
          r == Err(ArgumentException(UnrepresentableDateTime))
        else
          r.Ok? && bookingRepository.bookings == old(bookingRepository.bookings) + [r.value]
      ensures r.Ok? ==> IsSlotBooking(r.value, request, now) && r.value.Id == generatedId
      ensures r.Ok? ==>
        !IsTimeSlotAvailable(bookingRepository.bookings, request.ChargingStationId, request.ChargingPointNumber,
                             r.value.BookingDate, request.TimeSlot)
      ensures NoDoubleBooking(old(bookingRepository.bookings)) ==> NoDoubleBooking(bookingRepository.bookings)
    {
      if request.ChargingPointNumber < 1 || request.ChargingPointNumber > ChargingPointsPerStation {
        return Err(ArgumentException(InvalidPointNumber));
      }
      if request.TimeSlot < 0 || request.TimeSlot >= HoursPerDay {
        return Err(ArgumentException(InvalidTimeSlot));
      }
      var bookingDate := Date(request.BookingDate);
      var isAvailable := IsTimeSlotAvailable(bookingRepository.bookings, request.ChargingStationId,
                                             request.ChargingPointNumber, bookingDate, request.TimeSlot);
      if !isAvailable {
        return Err(InvalidOperationException(SlotTaken));
      }
      var startTime := bookingDate + request.TimeSlot * MsPerHour;
      var endTime := startTime + MsPerHour;
      if endTime > MaxInstant {
        return Err(ArgumentException(UnrepresentableDateTime));
      }
      var booking := Booking("", "", request.EVOwnerNIC, request.ChargingStationId, request.ChargingPointNumber,
                             bookingDate, request.TimeSlot, startTime, endTime, SlotMinutes, Approved, "", now, now);
      var stored := booking.(Id := generatedId, BookingReference := Reference(now));
      SlotBookingFor(request, now, generatedId);
      assert stored == SlotBooking(request, now, generatedId);
      BookFreeCell(bookingRepository.bookings, stored);
      r := bookingRepository.Create(booking, now, generatedId);
      assert r == Ok(stored);
    }
  }
}
