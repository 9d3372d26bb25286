/** The text a QR code carries. The service serialises its payload record to
    JSON and wraps it in Base64; this model replaces that pair by a
    length-prefixed field encoding with the same contract: whatever is
    encoded decodes back to the same record, and text that is not an
    encoding of a well-formed record is refused. */
module QRCodec {
  import opened Common
  import opened Clock
  import opened Decimal

  /** The payload of a QR code (`QRCodeData`). */
  datatype QRCodeData = QRCodeData(
    BookingId: string,
    BookingReference: string,
    EVOwnerNIC: string,
    ChargingStationId: string,
    ChargingPointNumber: int,
    StartTime: Instant,
    DurationMinutes: int,
    GeneratedAt: Instant,
    ExpiresAt: Instant,
    Version: string)

  /** A C# `int`. */
  predicate IsInt32(n: int) {
    -0x8000_0000 <= n < 0x8000_0000
  }

  /** The values a `QRCodeData` can hold: its `int` properties are 32-bit and
      its `DateTime` properties are at most `DateTime.MaxValue`. */
  predicate WellFormed(p: QRCodeData) {
    IsInt32(p.ChargingPointNumber) && IsInt32(p.DurationMinutes) &&
    p.StartTime <= MaxInstant && p.GeneratedAt <= MaxInstant && p.ExpiresAt <= MaxInstant
  }

  /** One serialised property: a string or a number. */
  datatype Field = Text(text: string) | Number(number: int)

  /** A string as its length, `:` and its characters; a number as its sign,
      its digits and `;`. */
  function EncodeField(f: Field): (s: string)
    ensures |s| > 0
  {
    match f
    case Text(x) => NatToString(|x|) + ":" + x
    case Number(n) => (if n < 0 then "-" else "+") + NatToString(if n < 0 then -n else n) + ";"
  }

  function EncodeFields(fs: seq<Field>): string {
    if |fs| == 0 then "" else EncodeField(fs[0]) + EncodeFields(fs[1..])
  }

  /** Reads the digits and `;` of a number field whose sign has been read. */
  function DecodeNumber(negative: bool, s: string): (r: Option<(Field, string)>)
    ensures r.Some? ==> |r.value.1| < |s|
  {
    var (digits, rest) := SpanDigits(s);
    if |digits| == 0 || |rest| == 0 || rest[0] != ';' then None
    else
      var v: int := ValueOf(digits);
      Some((Number(if negative then -v else v), rest[1..]))
  }

  /** Reads the length, `:` and characters of a string field. */
  function DecodeText(s: string): (r: Option<(Field, string)>)
    ensures r.Some? ==> |r.value.1| < |s|
  {
    var (digits, rest) := SpanDigits(s);
    if |digits| == 0 || |rest| == 0 || rest[0] != ':' then None
    else
      var n := ValueOf(digits);
      if n > |rest| - 1 then None
      else Some((Text(rest[1..n + 1]), rest[n + 1..]))
  }

  /** Reads one field off the front of `s`, returning it and what follows. */
  function DecodeField(s: string): (r: Option<(Field, string)>)
    ensures r.Some? ==> |r.value.1| < |s|
  {
    if |s| == 0 then None
    else if s[0] == '+' || s[0] == '-' then DecodeNumber(s[0] == '-', s[1..])
    else DecodeText(s)
  }

  /** Reads fields until the input is used up; fails on any malformed field. */
  function DecodeFields(s: string): Option<seq<Field>>
    decreases |s|
  {
    if |s| == 0 then Some([])
    else
      match DecodeField(s)
      case None => None
      case Some((f, rest)) =>
        match DecodeFields(rest)
        case None => None
        case Some(fs) => Some([f] + fs)
  }

  /** Regrouping the pieces of an encoded field followed by what comes after it. */
  lemma Regroup(a: string, b: string, c: string, d: string)
    ensures a + b + c + d == a + (b + c + d)
    ensures a + b + c + d == a + (b + (c + d))
  {
  }

  /** Once the length digits and the `:` after them are found, that many characters are read. */
  lemma DecodeTextSpan(s: string, digits: string, tail: string)
    requires SpanDigits(s) == (digits, tail)
    requires |digits| > 0 && |tail| > 0 && tail[0] == ':' && ValueOf(digits) <= |tail| - 1
    ensures DecodeText(s) == Some((Text(tail[1..ValueOf(digits) + 1]), tail[ValueOf(digits) + 1..]))
  {
  }

  /** A string field is read back from the front of its encoding, whatever follows it. */
  lemma DecodeTextOf(x: string, rest: string)
    ensures DecodeField(EncodeField(Text(x)) + rest) == Some((Text(x), rest))
  {
    var len := NatToString(|x|);
    var tail := ":" + x + rest;
    var s := EncodeField(Text(x)) + rest;
    Regroup(len, ":", x, rest);
    assert s == len + tail;
    assert s[0] == len[0];
    assert tail[1..|x| + 1] == x && tail[|x| + 1..] == rest;
    SpanDigitsOf(len, tail);
    NatToStringValue(|x|);
    DecodeTextSpan(s, len, tail);
  }

  /** Once the digits and the `;` after them are found, the number they spell is read. */
  lemma DecodeNumberSpan(negative: bool, s: string, digits: string, tail: string)
    requires SpanDigits(s) == (digits, tail)
    requires |digits| > 0 && |tail| > 0 && tail[0] == ';'
    ensures DecodeNumber(negative, s) ==
      Some((Number(if negative then -(ValueOf(digits) as int) else ValueOf(digits)), tail[1..]))
  {
  }

  /** A sign, digits and `;` at the front of `s` are read as the signed number the digits spell. */
  lemma DecodeSignedDigits(negative: bool, digits: string, tail: string, s: string)
    requires |digits| > 0 && AllDigits(digits)
    requires |tail| > 0 && tail[0] == ';'
    requires s == [if negative then '-' else '+'] + (digits + tail)
    ensures DecodeField(s) ==
      Some((Number(if negative then -(ValueOf(digits) as int) else ValueOf(digits)), tail[1..]))
  {
    assert s[1..] == digits + tail;
    SpanDigitsOf(digits, tail);
    DecodeNumberSpan(negative, s[1..], digits, tail);
  }

  /** A number field is read back from the front of its encoding, whatever follows it. */
  lemma DecodeNumberOf(n: int, rest: string)
    ensures DecodeField(EncodeField(Number(n)) + rest) == Some((Number(n), rest))
  {
    var m: nat := if n < 0 then -n else n;
    var digits := NatToString(m);
    var tail := ";" + rest;
    var sign := if n < 0 then "-" else "+";
    var s := EncodeField(Number(n)) + rest;
    assert EncodeField(Number(n)) == sign + digits + ";";
    Regroup(sign, digits, ";", rest);
    assert sign == [if n < 0 then '-' else '+'];
    assert tail[1..] == rest;
    NatToStringValue(m);
    DecodeSignedDigits(n < 0, digits, tail, s);
  }

  lemma DecodeFieldOf(f: Field, rest: string)
    ensures DecodeField(EncodeField(f) + rest) == Some((f, rest))
  {
    match f
    case Text(x) => DecodeTextOf(x, rest);
    case Number(n) => DecodeNumberOf(n, rest);
  }

  /** A field read off the front followed by a list read from the rest is the whole list. */
  lemma DecodeFieldsStep(s: string, f: Field, rest: string, fs: seq<Field>)
    requires |s| > 0 && DecodeField(s) == Some((f, rest)) && DecodeFields(rest) == Some(fs)
    ensures DecodeFields(s) == Some([f] + fs)
  {
  }

  /** Decoding an encoded field list gives the list back. */
  lemma {:induction false} DecodeEncodeFields(fs: seq<Field>)
    ensures DecodeFields(EncodeFields(fs)) == Some(fs)
  {
    if |fs| > 0 {
      var rest := EncodeFields(fs[1..]);
      DecodeFieldOf(fs[0], rest);
      DecodeEncodeFields(fs[1..]);
      DecodeFieldsStep(EncodeFields(fs), fs[0], rest, fs[1..]);
      assert [fs[0]] + fs[1..] == fs;
    }
  }

  /** The properties in declaration order, as `JsonSerializer` writes them. */
  function ToFields(p: QRCodeData): seq<Field> {
    [Text(p.BookingId), Text(p.BookingReference), Text(p.EVOwnerNIC), Text(p.ChargingStationId),
     Number(p.ChargingPointNumber), Number(p.StartTime), Number(p.DurationMinutes),
     Number(p.GeneratedAt), Number(p.ExpiresAt), Text(p.Version)]
  }

  predicate IsInstant(f: Field) {
    f.Number? && 0 <= f.number <= MaxInstant
  }

  /** Rebuilds the record; fails when a property has the wrong kind or a value
      its C# type cannot hold. */
  function FromFields(fs: seq<Field>): (r: Option<QRCodeData>)
    ensures r.Some? ==> WellFormed(r.value) && ToFields(r.value) == fs
  {
    if |fs| == 10 && fs[0].Text? && fs[1].Text? && fs[2].Text? && fs[3].Text? &&
       fs[4].Number? && IsInt32(fs[4].number) && IsInstant(fs[5]) &&
       fs[6].Number? && IsInt32(fs[6].number) && IsInstant(fs[7]) && IsInstant(fs[8]) &&
       fs[9].Text?
    then
      Some(QRCodeData(fs[0].text, fs[1].text, fs[2].text, fs[3].text,
                      fs[4].number, fs[5].number, fs[6].number, fs[7].number, fs[8].number,
                      fs[9].text))
    else None
  }

  /** Serialises a payload (stands for `JsonSerializer.Serialize` then Base64). */
  function Encode(p: QRCodeData): string {
    EncodeFields(ToFields(p))
  }

  /** Parses a payload (stands for Base64 decoding then `JsonSerializer.Deserialize`). */
  function Decode(s: string): (r: Option<QRCodeData>)
    ensures r.Some? ==> WellFormed(r.value)
  {
    match DecodeFields(s)
    case None => None
    case Some(fs) => FromFields(fs)
  }

  /** Every well-formed payload survives encoding and decoding. */
  lemma DecodeEncode(p: QRCodeData)
    requires WellFormed(p)
    ensures Decode(Encode(p)) == Some(p)
  {
    DecodeEncodeFields(ToFields(p));
  }
}
