/** QR credentials for approved bookings (Services/QRCodeService.cs): issuing
    a token, validating one against the live booking, and the boolean check
    the completion action uses. The booking lookup reads the bookings
    collection; `now` stands for `DateTime.UtcNow`. */
module QRCodes {
  import opened Common
  import opened Clock
  import opened Models
  import opened BookingStore
  import opened QRCodec

  const FormatVersion := "1.0"
  const NotApprovedForQR := "QR Code can only be generated for approved bookings"
  const InvalidFormat := "Invalid QR code format"
  const Expired := "QR code has expired"
  const BookingNotApproved := "Invalid booking or booking not approved"
  const Mismatch := "QR code data does not match booking details"

  /** The payload issued for `b` at `now`. */
  function Payload(b: Booking, now: Instant): QRCodeData {
    QRCodeData(b.Id, b.BookingReference, b.EVOwnerNIC, b.ChargingStationId, b.ChargingPointNumber,
               b.StartTime, b.DurationMinutes, now, b.StartTime + MsPerHour, FormatVersion)
  }

  /** The booking fields a token is checked against. */
  predicate MatchesBooking(b: Booking, p: QRCodeData) {
    b.BookingReference == p.BookingReference &&
    b.EVOwnerNIC == p.EVOwnerNIC &&
    b.ChargingStationId == p.ChargingStationId
  }

  /** `GenerateQRCodeDataAsync`: only an Approved booking gets a token, and the
      token carries the booking's own fields, expiring one hour after its start. */
  function GenerateQRCodeData(booking: Option<Booking>, now: Instant): (r: Result<string>)
    requires now <= MaxInstant
    requires booking.Some? ==> IsInt32(booking.value.ChargingPointNumber) && IsInt32(booking.value.DurationMinutes)
    ensures booking.None? || booking.value.Status != Approved ==>
      r == Err(InvalidOperationException(NotApprovedForQR))
    ensures booking.Some? && booking.value.Status == Approved && booking.value.StartTime + MsPerHour > MaxInstant ==>
      r == Err(ArgumentException(UnrepresentableDateTime))
    ensures r.Ok? ==>
      booking.Some? && booking.value.Status == Approved &&
      var p := Decode(r.value);
      p.Some? && p.value.ExpiresAt == booking.value.StartTime + MsPerHour && p.value.GeneratedAt == now &&
      p.value.BookingId == booking.value.Id && MatchesBooking(booking.value, p.value)
  {
    if booking.None? || booking.value.Status != Approved then
      Err(InvalidOperationException(NotApprovedForQR))
    else if booking.value.StartTime + MsPerHour > MaxInstant then
      Err(ArgumentException(UnrepresentableDateTime))
    else
      var p := Payload(booking.value, now);
      DecodeEncode(p);
      Ok(Encode(p))
  }

  /** `ValidateQRCodeAsync`: decode, then expiry, then the live booking's
      status, then its reference, owner and station. Every rejection is an
      `InvalidOperationException`. */
  function ValidateQRCode(qrData: string, now: Instant, bookings: seq<Booking>): (r: Result<QRCodeData>)
    ensures r.Err? ==> r.error.InvalidOperationException?
    ensures Decode(qrData).None? ==> r == Err(InvalidOperationException(InvalidFormat))
    ensures Decode(qrData).Some? && now > Decode(qrData).value.ExpiresAt ==>
      r == Err(InvalidOperationException(Expired))
    ensures r.Ok? ==>
      Decode(qrData) == Some(r.value) && now <= r.value.ExpiresAt &&
      var b := FindById(bookings, r.value.BookingId);
      b.Some? && b.value.Status == Approved && MatchesBooking(b.value, r.value)
  {
    match Decode(qrData)
    case None => Err(InvalidOperationException(InvalidFormat))
    case Some(p) =>
      if now > p.ExpiresAt then Err(InvalidOperationException(Expired))
      else
        var b := FindById(bookings, p.BookingId);
        if b.None? || b.value.Status != Approved then Err(InvalidOperationException(BookingNotApproved))
        else if !MatchesBooking(b.value, p) then Err(InvalidOperationException(Mismatch))
        else Ok(p)
  }

  /** A token for a booking that is missing or no longer Approved is refused,
      whatever else it carries. */
  lemma RejectsUnapproved(p: QRCodeData, now: Instant, bookings: seq<Booking>)
    requires WellFormed(p) && now <= p.ExpiresAt
    requires var b := FindById(bookings, p.BookingId); b.None? || b.value.Status != Approved
    ensures ValidateQRCode(Encode(p), now, bookings) == Err(InvalidOperationException(BookingNotApproved))
  {
    DecodeEncode(p);
  }

  /** A token whose reference, owner or station differs from the live Approved
      booking is refused. */
  lemma RejectsMismatch(p: QRCodeData, now: Instant, bookings: seq<Booking>)
    requires WellFormed(p) && now <= p.ExpiresAt
    requires var b := FindById(bookings, p.BookingId);
      b.Some? && b.value.Status == Approved && !MatchesBooking(b.value, p)
    ensures ValidateQRCode(Encode(p), now, bookings) == Err(InvalidOperationException(Mismatch))
  {
    DecodeEncode(p);
  }

  /** Any well-formed payload naming a live Approved booking with its
      reference, owner and station is accepted until its own `ExpiresAt`.
      Point number, start time, duration, issue time and version are not
      compared, and nothing binds the token to the issuer. */
  lemma AcceptsMatching(p: QRCodeData, now: Instant, bookings: seq<Booking>)
    requires WellFormed(p) && now <= p.ExpiresAt
    requires var b := FindById(bookings, p.BookingId);
      b.Some? && b.value.Status == Approved && MatchesBooking(b.value, p)
    ensures ValidateQRCode(Encode(p), now, bookings) == Ok(p)
  {
    DecodeEncode(p);
  }

  /** Expiry is strict: a token is still accepted at exactly `ExpiresAt` and
      refused from the next millisecond on. */
  lemma ExpiryBoundary(p: QRCodeData, bookings: seq<Booking>)
    requires WellFormed(p)
    requires var b := FindById(bookings, p.BookingId);
      b.Some? && b.value.Status == Approved && MatchesBooking(b.value, p)
    ensures ValidateQRCode(Encode(p), p.ExpiresAt, bookings).Ok?
    ensures ValidateQRCode(Encode(p), p.ExpiresAt + 1, bookings) == Err(InvalidOperationException(Expired))
  {
    AcceptsMatching(p, p.ExpiresAt, bookings);
    DecodeEncode(p);
  }

  /** The round trip: a token issued for an Approved booking that is still
      stored unchanged validates, up to one hour after the start, to a payload
      carrying that booking's fields. */
  lemma IssueThenValidate(b: Booking, issuedAt: Instant, now: Instant, bookings: seq<Booking>)
    requires issuedAt <= MaxInstant && b.Status == Approved
    requires b.StartTime + MsPerHour <= MaxInstant
    requires IsInt32(b.ChargingPointNumber) && IsInt32(b.DurationMinutes)
    requires FindById(bookings, b.Id) == Some(b)
    requires now <= b.StartTime + MsPerHour
    ensures GenerateQRCodeData(Some(b), issuedAt) == Ok(Encode(Payload(b, issuedAt)))
    ensures ValidateQRCode(Encode(Payload(b, issuedAt)), now, bookings) == Ok(Payload(b, issuedAt))
    ensures var p := Payload(b, issuedAt);
      p.BookingId == b.Id && p.BookingReference == b.BookingReference && p.EVOwnerNIC == b.EVOwnerNIC &&
      p.ChargingStationId == b.ChargingStationId && p.ChargingPointNumber == b.ChargingPointNumber &&
      p.StartTime == b.StartTime && p.DurationMinutes == b.DurationMinutes
  {
    AcceptsMatching(Payload(b, issuedAt), now, bookings);
  }

  /** `IsQRCodeValidAsync`: validation succeeds and names the expected booking;
      a rejection is `false`, never an error. */
  function IsQRCodeValid(qrData: string, bookingId: string, now: Instant, bookings: seq<Booking>): (r: bool)
    ensures r <==>
      var p := Decode(qrData);
      p.Some? && p.value.BookingId == bookingId && now <= p.value.ExpiresAt &&
      var b := FindById(bookings, bookingId);
      b.Some? && b.value.Status == Approved && MatchesBooking(b.value, p.value)
  {
    var v := ValidateQRCode(qrData, now, bookings);
    v.Ok? && v.value.BookingId == bookingId
  }

  /** An issued token is valid for its own booking until an hour after the start. */
  lemma IssuedTokenIsValid(b: Booking, issuedAt: Instant, now: Instant, bookings: seq<Booking>)
    requires issuedAt <= MaxInstant && b.Status == Approved
    requires b.StartTime + MsPerHour <= MaxInstant
    requires IsInt32(b.ChargingPointNumber) && IsInt32(b.DurationMinutes)
    requires FindById(bookings, b.Id) == Some(b)
    requires now <= b.StartTime + MsPerHour
    ensures GenerateQRCodeData(Some(b), issuedAt).Ok?
    ensures IsQRCodeValid(GenerateQRCodeData(Some(b), issuedAt).value, b.Id, now, bookings)
  {
    IssueThenValidate(b, issuedAt, now, bookings);
  }
}
