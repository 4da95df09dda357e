/**
 * The records of pkg/models as values. Amounts and timestamps are never
 * computed with on the request path, so they are kept opaque.
 */
module Models {
  import opened ByteStrings

  /** A float64 amount, kept as its IEEE-754 bit pattern; no arithmetic is done on it. */
  datatype Amount = Amount(bits: bv64)

  /** A time.Time value taken from the clock; only ever copied, never compared. */
  datatype Instant = Instant(unixNano: int)

  /** The two fields read from a submission body (PaymentBasic). */
  datatype PaymentBasic = PaymentBasic(correlationId: Bytes, amount: Amount)

  /** The body posted to a processor (PaymentRequest). */
  datatype PaymentRequest = PaymentRequest(correlationId: Bytes, amount: Amount, requestedAt: Instant)

  /** A stored outcome (PaymentDb); `fallback` tells which processor accepted it. */
  datatype PaymentDb = PaymentDb(correlationId: Bytes, amount: Amount, fallback: bool, createdAt: Instant)
}
