/** The payload carried by an event check-in QR code (`QRCodeUtil`): the map
    `{eventId, studentId}` the generator serialises, and the validation
    `parseQRCodeData` applies to a decoded document. The JSON text, the QR image
    and its Base64 encoding are library work and stay outside the model: the
    model starts from the document Jackson produced. */
module QRCode {
  import opened Common

  /** A JSON value as Jackson hands it over inside a `Map<String, Object>`. */
  datatype JsonValue =
    | JNull
    | JInt(i: int)      // Integer, Long or BigInteger
    | JReal(r: real)    // Double
    | JText(s: string)
    | JBool(b: bool)
    | JComposite        // a nested array or object

  /** What `readValue(qrData, Map.class)` yields: an IOException for malformed
      text or for a document that is neither an object nor `null`, a null map for
      the text `null`, or a JSON object. */
  datatype Document = Unreadable | NullDocument | JsonObject(fields: map<string, JsonValue>)

  const LONG_MIN: int := -0x8000_0000_0000_0000
  const LONG_MAX: int := 0x7FFF_FFFF_FFFF_FFFF
  const TWO_64: int := 0x1_0000_0000_0000_0000

  predicate IsLong(x: int) {
    LONG_MIN <= x <= LONG_MAX
  }

  /** Truncation of a real toward zero, as a Java cast does. */
  function TruncateTowardZero(r: real): (n: int)
    ensures 0.0 <= r ==> n as real <= r < n as real + 1.0
    ensures r < 0.0 ==> n as real - 1.0 < r <= n as real
  {
    if r >= 0.0 then r.Floor else -((-r).Floor)
  }

  /** `((Number) v).longValue()`: None when the cast throws ClassCastException.
      An integer keeps its low 64 bits; a double is truncated toward zero and
      saturates at the long range. */
  function LongValue(v: JsonValue): (n: Option<int>)
    ensures n.Some? <==> v.JInt? || v.JReal?
    ensures n.Some? ==> IsLong(n.value)
    ensures v.JInt? && IsLong(v.i) ==> n == Some(v.i)
  {
    match v
    case JInt(i) => Some((i - LONG_MIN) % TWO_64 + LONG_MIN)
    case JReal(r) =>
      var t := TruncateTowardZero(r);
      Some(if t < LONG_MIN then LONG_MIN else if t > LONG_MAX then LONG_MAX else t)
    case _ => None
  }

  predicate Present(fields: map<string, JsonValue>, key: string) {
    key in fields && fields[key] != JNull
  }

  /** Both ids are present and not null. */
  predicate BothPresent(fields: map<string, JsonValue>) {
    Present(fields, "eventId") && Present(fields, "studentId")
  }

  /** Both ids are present and are numbers. */
  predicate BothNumeric(fields: map<string, JsonValue>) {
    BothPresent(fields) && LongValue(fields["eventId"]).Some? && LongValue(fields["studentId"]).Some?
  }

  /** `parseQRCodeData`: the result map, `InvalidQRCode` for a missing, null or
      non-positive id or an unreadable document, `ClassCast` for an id that is
      not a number, and `NullPointer` when the document is the JSON `null`
      (`containsKey` on a null map, which neither catch clause handles). */
  function ParseQRCodeData(doc: Document): (r: Result<map<string, int>>)
    ensures doc.Unreadable? ==> r == Err(InvalidQRCode)
    ensures doc.NullDocument? ==> r == Err(NullPointer)
    ensures doc.JsonObject? && !BothPresent(doc.fields) ==> r == Err(InvalidQRCode)
    ensures doc.JsonObject? && BothPresent(doc.fields) && !BothNumeric(doc.fields) ==> r == Err(ClassCast)
    ensures doc.JsonObject? && BothNumeric(doc.fields) &&
            (LongValue(doc.fields["eventId"]).value <= 0 || LongValue(doc.fields["studentId"]).value <= 0)
            ==> r == Err(InvalidQRCode)
    ensures r.Ok? <==> doc.JsonObject? && BothNumeric(doc.fields) &&
                       LongValue(doc.fields["eventId"]).value > 0 && LongValue(doc.fields["studentId"]).value > 0
    ensures r.Err? ==> r.error in {InvalidQRCode, ClassCast, NullPointer}
    ensures r.Ok? ==> r.value.Keys == {"eventId", "studentId"}
    ensures r.Ok? ==> r.value["eventId"] > 0 && r.value["studentId"] > 0
    ensures r.Ok? ==> LongValue(doc.fields["eventId"]) == Some(r.value["eventId"])
    ensures r.Ok? ==> LongValue(doc.fields["studentId"]) == Some(r.value["studentId"])
  {
    match doc
    case Unreadable => Err(InvalidQRCode)
    case NullDocument => Err(NullPointer)
    case JsonObject(fields) =>
      if !Present(fields, "eventId") then Err(InvalidQRCode)
      else if !Present(fields, "studentId") then Err(InvalidQRCode)
      else
        var eventId := LongValue(fields["eventId"]);
        var studentId := LongValue(fields["studentId"]);
        if eventId.None? || studentId.None? then Err(ClassCast)
        else if eventId.value <= 0 || studentId.value <= 0 then Err(InvalidQRCode)
        else Ok(map["eventId" := eventId.value, "studentId" := studentId.value])
  }

  /** The map `generateQRCodeBase64` serialises before rendering the image. */
  function QRPayload(eventId: Id, studentId: Id): (fields: map<string, JsonValue>)
    ensures fields.Keys == {"eventId", "studentId"}
    ensures fields["eventId"] == JInt(eventId) && fields["studentId"] == JInt(studentId)
  {
    map["eventId" := JInt(eventId), "studentId" := JInt(studentId)]
  }

  /** Round trip at the map level: parsing what the generator wrote for two
      positive long ids gives back the same pair. */
  lemma ParseGeneratedPayload(eventId: Id, studentId: Id)
    requires 0 < eventId <= LONG_MAX && 0 < studentId <= LONG_MAX
    ensures ParseQRCodeData(JsonObject(QRPayload(eventId, studentId)))
            == Ok(map["eventId" := eventId, "studentId" := studentId])
  {
  }

  /** A payload with a number that is not positive is rejected, whatever the other id. */
  lemma NonPositiveIdRejected(eventId: int, studentId: int)
    requires IsLong(eventId) && IsLong(studentId)
    requires eventId <= 0 || studentId <= 0
    ensures ParseQRCodeData(JsonObject(QRPayload(eventId, studentId))) == Err(InvalidQRCode)
  {
  }
}
