/**
 * The fingerprint as the service builds it: the seven semantic fields
 * rendered as text and joined with "|". A `null` optional field renders as
 * the text "null". Instants are rendered here as their decimal nanosecond
 * count instead of ISO-8601; the collisions below lie in the last two
 * fields and hold whatever the rendering of the others.
 */
module PayloadText {
  import opened Wrappers
  import opened EventModel
  import opened EventIngest

  function DigitChar(d: int): char
    requires 0 <= d < 10
  {
    "0123456789"[d]
  }

  /** Decimal rendering of a natural number. */
  function NatText(n: nat): (s: string)
    ensures |s| >= 1
    decreases n
  {
    if n < 10 then [DigitChar(n)] else NatText(n / 10) + [DigitChar(n % 10)]
  }

  /** Decimal rendering of an integer, as string concatenation renders a `long` or an `int`. */
  function IntText(n: int): string
  {
    if n < 0 then "-" + NatText(-n) else NatText(n)
  }

  /** String concatenation of a possibly-null string. */
  function NullableText(s: Option<string>): string
  {
    match s
    case None => "null"
    case Some(v) => v
  }

  /** The "|"-joined text `computePayloadHash` returns. */
  function PayloadText(dto: EventRequest): string
  {
    dto.eventId + "|" + dto.machineId + "|" + IntText(dto.eventTime) + "|" + IntText(dto.durationMs) +
    "|" + IntText(dto.defectCount) + "|" + NullableText(dto.factoryId) + "|" + NullableText(dto.lineId)
  }

  /**
   * A "|" inside factoryId or lineId moves the boundary between them without
   * changing the text: two requests with different content get the same
   * text, so the second would be DEDUPED against the first instead of
   * reconciled as a change.
   */
  lemma SeparatorInFieldCollides(dto: EventRequest)
    ensures var a := dto.(factoryId := Some("F|L"), lineId := Some("X"));
      var b := dto.(factoryId := Some("F"), lineId := Some("L|X"));
      PayloadText(a) == PayloadText(b) && !SameContent(a, b)
  {
  }

  /** A missing lineId and the lineId "null" render the same. */
  lemma NullAndNullTextCollide(dto: EventRequest)
    ensures var a := dto.(lineId := None);
      var b := dto.(lineId := Some("null"));
      PayloadText(a) == PayloadText(b) && !SameContent(a, b)
  {
  }
}
