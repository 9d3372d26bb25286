/** The booking lifecycle actions of Controllers/BookingsController.cs: the id
    check of `Update`, issuing and validating QR credentials, and the
    operator status changes (status PATCH, approve, start, complete). Each
    action reads the booking, assigns its fields and writes it back, either
    through `UpdateBookingAsync` (and its 12-hour rule) or through the direct
    repository write. Caught exceptions become HTTP answers. */
module BookingsApi {
  import opened Common
  import opened Clock
  import opened Collections
  import opened Models
  import opened BookingStore
  import opened QRCodec
  import opened QRCodes
  import opened BookingRules

  const IdMismatch := "ID mismatch"
  const InvalidQRForBooking := "Invalid QR code for this booking"
  const UnknownStatus := "Unknown"

  /** `NotFound($"Booking with ID {id} not found")`. */
  function NotFoundMessage(id: string): string {
    "Booking with ID " + id + " not found"
  }

  /** `StatusCode(500, $"Internal server error: {ex.Message}")`. */
  function ServerErrorMessage(e: Error): string {
    "Internal server error: " + e.message
  }

  /** `QRValidationResponse`; fields left unset keep their defaults. */
  datatype QRValidationResponse = QRValidationResponse(
    IsValid: bool,
    BookingId: string,
    BookingReference: string,
    EVOwnerNIC: string,
    ChargingStationId: string,
    ChargingPointNumber: int,
    StartTime: Instant,
    DurationMinutes: int,
    Status: string,
    ErrorMessage: string)

  /** `ValidateQRCode`: always answers 200. A token the service accepts is
      reported valid with its booking fields and the live booking's status,
      which is then always Approved; any rejection is reported invalid with
      the service's message and nothing else. */
  function ValidateQRCodeAction(qrData: string, now: Instant, bookings: seq<Booking>)
    : (r: ActionResult<QRValidationResponse>)
    ensures r.OkObject?
    ensures r.value.IsValid <==> ValidateQRCode(qrData, now, bookings).Ok?
    ensures r.value.IsValid ==>
      var p := Decode(qrData).value;
      Decode(qrData).Some? && now <= p.ExpiresAt &&
      r.value == QRValidationResponse(true, p.BookingId, p.BookingReference, p.EVOwnerNIC, p.ChargingStationId,
                                      p.ChargingPointNumber, p.StartTime, p.DurationMinutes, Approved, "")
    ensures !r.value.IsValid ==>
      r.value == QRValidationResponse(false, "", "", "", "", 0, 0, 0, "", ValidateQRCode(qrData, now, bookings).error.message)
  {
    match ValidateQRCode(qrData, now, bookings)
    case Ok(p) =>
      var booking := FindById(bookings, p.BookingId);
      OkObject(QRValidationResponse(true, p.BookingId, p.BookingReference, p.EVOwnerNIC, p.ChargingStationId,
                                    p.ChargingPointNumber, p.StartTime, p.DurationMinutes,
                                    if booking.Some? then booking.value.Status else UnknownStatus, ""))
    case Err(e) =>
      OkObject(QRValidationResponse(false, "", "", "", "", 0, 0, 0, "", e.message))
  }

  /** The concrete case: an Approved booking whose session starts now. */
  lemma CompletionAtStartRefused()
    ensures !CanModifyBooking(1000 * MsPerDay, 1000 * MsPerDay)
    ensures CanModifyBooking(1000 * MsPerDay, 1000 * MsPerDay - 12 * MsPerHour)
  {
  }

  class BookingsController {
    const bookingService: BookingService

    constructor (bookingService: BookingService)
      ensures this.bookingService == bookingService
    {
      this.bookingService := bookingService;
    }

    /** `Update`: a body whose `Id` differs from the path id is a BadRequest
        before the store is read; otherwise the service's answer, with
        `ArgumentException` as NotFound and `InvalidOperationException` as
        BadRequest. */
    method Update(id: string, booking: Booking, now: Instant) returns (r: ActionResult<Booking>)
      requires bookingService.bookingRepository.Valid()
      modifies bookingService.bookingRepository
      ensures bookingService.bookingRepository.Valid()
      ensures id != booking.Id ==>
        r == BadRequest(IdMismatch) && bookingService.bookingRepository.bookings == old(bookingService.bookingRepository.bookings)
      ensures id == booking.Id && FindById(old(bookingService.bookingRepository.bookings), id).None? ==>
        r == NotFound(BookingNotFound)
      ensures id == booking.Id && FindById(old(bookingService.bookingRepository.bookings), id).Some? ==>
        var existing := FindById(old(bookingService.bookingRepository.bookings), id).value;
        if !CanModifyBooking(existing.StartTime, now) then
          r == BadRequest(ModifyTooLate)
        else if booking.StartTime != existing.StartTime &&
                !IsReservationWithinAllowedPeriod(booking.StartTime, now) then
          r == BadRequest(OutsideWindow)
        else
          r == OkObject(booking.(UpdatedAt := now))
      ensures !r.OkObject? ==> bookingService.bookingRepository.bookings == old(bookingService.bookingRepository.bookings)
      ensures r.OkObject? ==>
        id == booking.Id && r.value == booking.(UpdatedAt := now) &&
        FindById(bookingService.bookingRepository.bookings, id) == Some(r.value) &&
        forall other :: other != id ==>
          FindById(bookingService.bookingRepository.bookings, other) ==
          FindById(old(bookingService.bookingRepository.bookings), other)
    {
      if id != booking.Id {
        return BadRequest(IdMismatch);
      }
      var updated := bookingService.UpdateBooking(id, booking, now);
      match updated
      case Ok(b) => r := OkObject(b);
      case Err(e) =>
        match e
        case ArgumentException(m) => r := NotFound(m);
        case InvalidOperationException(m) => r := BadRequest(m);
        case Database(_) => r := ServerError(ServerErrorMessage(e));
    }

    /** `GenerateQRCode`: issues a token for the stored booking, stores it on
        the booking through `UpdateBookingAsync` and answers with it. The
        booking must be Approved and, because of that write, start at least
        twelve hours from now. The token then validates for this booking
        until an hour after its start. */
    method GenerateQRCode(id: string, now: Instant) returns (r: ActionResult<string>)
      requires bookingService.bookingRepository.Valid() && now <= MaxInstant
      requires var b := FindById(bookingService.bookingRepository.bookings, id);
        b.Some? ==> IsInt32(b.value.ChargingPointNumber) && IsInt32(b.value.DurationMinutes)
      modifies bookingService.bookingRepository
      ensures bookingService.bookingRepository.Valid()
      ensures !r.OkObject? ==> bookingService.bookingRepository.bookings == old(bookingService.bookingRepository.bookings)
      ensures FindById(old(bookingService.bookingRepository.bookings), id).None? ==> r == NotFound(NotFoundMessage(id))
      ensures FindById(old(bookingService.bookingRepository.bookings), id).Some? ==>
        var b := FindById(old(bookingService.bookingRepository.bookings), id).value;
        if b.Status != Approved then
          r == BadRequest(NotApprovedForQR)
        else if b.StartTime + MsPerHour > MaxInstant then
          r == ServerError(ServerErrorMessage(ArgumentException(UnrepresentableDateTime)))
        else if !CanModifyBooking(b.StartTime, now) then
          r == BadRequest(ModifyTooLate)
        else
          r.OkObject? &&
          FindById(bookingService.bookingRepository.bookings, id) == Some(b.(QRCodeData := r.value, UpdatedAt := now)) &&
          forall later: Instant :: later <= b.StartTime + MsPerHour ==>
            IsQRCodeValid(r.value, id, later, bookingService.bookingRepository.bookings)
      ensures r.OkObject? ==>
        forall other :: other != id ==>
          FindById(bookingService.bookingRepository.bookings, other) ==
          FindById(old(bookingService.bookingRepository.bookings), other)
    {
      var booking := FindById(bookingService.bookingRepository.bookings, id);
      if booking.None? {
        return NotFound(NotFoundMessage(id));
      }
      var qr := GenerateQRCodeData(booking, now);
      if qr.Err? {
        if qr.error.InvalidOperationException? {
          return BadRequest(qr.error.message);
        }
        return ServerError(ServerErrorMessage(qr.error));
      }
      var b := booking.value;
      var withToken := b.(QRCodeData := qr.value, UpdatedAt := now);
      var updated := bookingService.UpdateBooking(id, withToken, now);
      match updated
      case Err(InvalidOperationException(m)) =>
        r := BadRequest(m);
      case Err(e) =>
        r := ServerError(ServerErrorMessage(e));
      case Ok(_) =>
        TokenStaysValid(b, withToken, now, bookingService.bookingRepository.bookings);
        r := OkObject(qr.value);
    }

    /** The token issued for `b` still validates once the stored booking is
        `stored`, which differs from `b` only in fields validation ignores. */
    static lemma TokenStaysValid(b: Booking, stored: Booking, issuedAt: Instant, bookings: seq<Booking>)
      requires issuedAt <= MaxInstant && b.Status == Approved && b.StartTime + MsPerHour <= MaxInstant
      requires IsInt32(b.ChargingPointNumber) && IsInt32(b.DurationMinutes)
      requires stored == b.(QRCodeData := stored.QRCodeData, UpdatedAt := stored.UpdatedAt)
      requires FindById(bookings, b.Id) == Some(stored)
      ensures forall later: Instant :: later <= b.StartTime + MsPerHour ==>
        IsQRCodeValid(Encode(Payload(b, issuedAt)), b.Id, later, bookings)
    {
      forall later: Instant | later <= b.StartTime + MsPerHour
        ensures IsQRCodeValid(Encode(Payload(b, issuedAt)), b.Id, later, bookings)
      {
        AcceptsMatching(Payload(b, issuedAt), later, bookings);
      }
    }

    /** The direct status write shared by the status PATCH, approve and start:
        no time rule and no check of the previous status. */
    method SetStatusDirect(id: string, status: string, now: Instant) returns (r: ActionResult<Booking>)
      requires bookingService.bookingRepository.Valid()
      modifies bookingService.bookingRepository
      ensures bookingService.bookingRepository.Valid()
      ensures FindById(old(bookingService.bookingRepository.bookings), id).None? ==>
        r == NotFound(NotFoundMessage(id)) &&
        bookingService.bookingRepository.bookings == old(bookingService.bookingRepository.bookings)
      ensures FindById(old(bookingService.bookingRepository.bookings), id).Some? ==>
        var b := FindById(old(bookingService.bookingRepository.bookings), id).value;
        r == OkObject(b.(Status := status, UpdatedAt := now)) &&
        FindById(bookingService.bookingRepository.bookings, id) == Some(r.value) &&
        forall other :: other != id ==>
          FindById(bookingService.bookingRepository.bookings, other) ==
          FindById(old(bookingService.bookingRepository.bookings), other)
    {
      var booking := FindById(bookingService.bookingRepository.bookings, id);
      if booking.None? {
        return NotFound(NotFoundMessage(id));
      }
      var changed := booking.value.(Status := status, UpdatedAt := now);
      var _ := bookingService.bookingRepository.Update(id, changed, now);
      r := OkObject(changed);
    }

    /** `UpdateBookingStatus`: stores whatever status string is supplied. */
    method UpdateBookingStatus(id: string, status: string, now: Instant) returns (r: ActionResult<Booking>)
      requires bookingService.bookingRepository.Valid()
      modifies bookingService.bookingRepository
      ensures bookingService.bookingRepository.Valid()
      ensures FindById(old(bookingService.bookingRepository.bookings), id).None? ==>
        r == NotFound(NotFoundMessage(id)) &&
        bookingService.bookingRepository.bookings == old(bookingService.bookingRepository.bookings)
      ensures FindById(old(bookingService.bookingRepository.bookings), id).Some? ==>
        r.OkObject? && r.value.Status == status &&
        r.value == FindById(old(bookingService.bookingRepository.bookings), id).value.(Status := status, UpdatedAt := now) &&
        FindById(bookingService.bookingRepository.bookings, id) == Some(r.value)
      ensures r.OkObject? ==>
        forall other :: other != id ==>
          FindById(bookingService.bookingRepository.bookings, other) ==
          FindById(old(bookingService.bookingRepository.bookings), other)
    {
      r := SetStatusDirect(id, status, now);
    }

    /** `ApproveBooking`: Approved from any status, at any time. */
    method ApproveBooking(id: string, now: Instant) returns (r: ActionResult<Booking>)
      requires bookingService.bookingRepository.Valid()
      modifies bookingService.bookingRepository
      ensures bookingService.bookingRepository.Valid()
      ensures FindById(old(bookingService.bookingRepository.bookings), id).None? ==>
        r == NotFound(NotFoundMessage(id)) &&
        bookingService.bookingRepository.bookings == old(bookingService.bookingRepository.bookings)
      ensures FindById(old(bookingService.bookingRepository.bookings), id).Some? ==>
        r.OkObject? &&
        r.value == FindById(old(bookingService.bookingRepository.bookings), id).value.(Status := Approved, UpdatedAt := now) &&
        FindById(bookingService.bookingRepository.bookings, id) == Some(r.value)
      ensures r.OkObject? ==>
        forall other :: other != id ==>
          FindById(bookingService.bookingRepository.bookings, other) ==
          FindById(old(bookingService.bookingRepository.bookings), other)
    {
      r := SetStatusDirect(id, Approved, now);
    }

    /** `StartCharging`: Started from any status, at any time. */
    method StartCharging(id: string, now: Instant) returns (r: ActionResult<Booking>)
      requires bookingService.bookingRepository.Valid()
      modifies bookingService.bookingRepository
      ensures bookingService.bookingRepository.Valid()
      ensures FindById(old(bookingService.bookingRepository.bookings), id).None? ==>
        r == NotFound(NotFoundMessage(id)) &&
        bookingService.bookingRepository.bookings == old(bookingService.bookingRepository.bookings)
      ensures FindById(old(bookingService.bookingRepository.bookings), id).Some? ==>
        r.OkObject? &&
        r.value == FindById(old(bookingService.bookingRepository.bookings), id).value.(Status := Started, UpdatedAt := now) &&
        FindById(bookingService.bookingRepository.bookings, id) == Some(r.value)
      ensures r.OkObject? ==>
        forall other :: other != id ==>
          FindById(bookingService.bookingRepository.bookings, other) ==
          FindById(old(bookingService.bookingRepository.bookings), other)
    {
      r := SetStatusDirect(id, Started, now);
    }

    /** `CompleteBooking` as written: non-empty QR data must be valid for this
        booking; the Completed booking is then saved through
        `UpdateBookingAsync`, whose 12-hour rule makes every completion less
        than twelve hours before the start, and so every completion of a
        session that has begun, a 500. A QR-gated completion only succeeds
        from Approved. */
    method CompleteBooking(id: string, qrData: string, now: Instant) returns (r: ActionResult<Booking>)
      requires bookingService.bookingRepository.Valid()
      modifies bookingService.bookingRepository
      ensures bookingService.bookingRepository.Valid()
      ensures !r.OkObject? ==> bookingService.bookingRepository.bookings == old(bookingService.bookingRepository.bookings)
      ensures FindById(old(bookingService.bookingRepository.bookings), id).None? ==> r == NotFound(NotFoundMessage(id))
      ensures FindById(old(bookingService.bookingRepository.bookings), id).Some? ==>
        var b := FindById(old(bookingService.bookingRepository.bookings), id).value;
        if qrData != "" && !IsQRCodeValid(qrData, id, now, old(bookingService.bookingRepository.bookings)) then
          r == BadRequest(InvalidQRForBooking)
        else if !CanModifyBooking(b.StartTime, now) then
          r == ServerError(ServerErrorMessage(InvalidOperationException(ModifyTooLate)))
        else
          r == OkObject(b.(Status := Completed, UpdatedAt := now)) &&
          FindById(bookingService.bookingRepository.bookings, id) == Some(r.value)
      ensures r.OkObject? ==>
        var b := FindById(old(bookingService.bookingRepository.bookings), id).value;
        CanModifyBooking(b.StartTime, now) && (qrData != "" ==> b.Status == Approved)
      ensures r.OkObject? ==>
        forall other :: other != id ==>
          FindById(bookingService.bookingRepository.bookings, other) ==
          FindById(old(bookingService.bookingRepository.bookings), other)
    {
      var booking := FindById(bookingService.bookingRepository.bookings, id);
      if booking.None? {
        return NotFound(NotFoundMessage(id));
      }
      if qrData != "" {
        var isValid := IsQRCodeValid(qrData, id, now, bookingService.bookingRepository.bookings);
        if !isValid {
          return BadRequest(InvalidQRForBooking);
        }
      }
      var completed := booking.value.(Status := Completed, UpdatedAt := now);
      var updated := bookingService.UpdateBooking(id, completed, now);
      if updated.Err? {
        return ServerError(ServerErrorMessage(updated.error));
      }
      r := OkObject(updated.value);
    }

    /** Completion as evidently intended: the same QR gate, then the direct
        status write the other operator actions use, so a session can be
        completed at any time, including after it has begun. */
    method CompleteBookingDirect(id: string, qrData: string, now: Instant) returns (r: ActionResult<Booking>)
      requires bookingService.bookingRepository.Valid()
      modifies bookingService.bookingRepository
      ensures bookingService.bookingRepository.Valid()
      ensures !r.OkObject? ==> bookingService.bookingRepository.bookings == old(bookingService.bookingRepository.bookings)
      ensures FindById(old(bookingService.bookingRepository.bookings), id).None? ==> r == NotFound(NotFoundMessage(id))
      ensures FindById(old(bookingService.bookingRepository.bookings), id).Some? ==>
        var b := FindById(old(bookingService.bookingRepository.bookings), id).value;
        if qrData != "" && !IsQRCodeValid(qrData, id, now, old(bookingService.bookingRepository.bookings)) then
          r == BadRequest(InvalidQRForBooking)
        else
          r == OkObject(b.(Status := Completed, UpdatedAt := now)) &&
          FindById(bookingService.bookingRepository.bookings, id) == Some(r.value)
      ensures r.OkObject? && qrData != "" ==>
        FindById(old(bookingService.bookingRepository.bookings), id).value.Status == Approved
      ensures r.OkObject? ==>
        forall other :: other != id ==>
          FindById(bookingService.bookingRepository.bookings, other) ==
          FindById(old(bookingService.bookingRepository.bookings), other)
    {
      var booking := FindById(bookingService.bookingRepository.bookings, id);
      if booking.None? {
        return NotFound(NotFoundMessage(id));
      }
      if qrData != "" {
        var isValid := IsQRCodeValid(qrData, id, now, bookingService.bookingRepository.bookings);
        if !isValid {
          return BadRequest(InvalidQRForBooking);
        }
      }
      r := SetStatusDirect(id, Completed, now);
    }
  }
}
