/** Why a market-data fetch can fail: the typed errors of the adapter, and the
    four exceptions that escape it untyped. */
module Failures {
  datatype Failure =
    | NotInstalled
    | ConnectionFailed
    | TimedOut
    | FramingFault
    | ProtocolFault
    | CriticalFault
    | CandleFault
    | TooFewBars
    | StaleData
    // A row keyed by a list or an object cannot be a dictionary key.
    | UnhashableKey
    // A timestamp past year 9999 is not a datetime.
    | DateOutOfRange
    // A quantization that needs more digits than the decimal context has.
    | DecimalOverflow
    // The assembled payload does not satisfy the market-data schema.
    | PayloadRejected

  /** The failures a fetch may be repeated after. */
  predicate IsTransport(f: Failure) {
    f.ConnectionFailed? || f.TimedOut?
  }
}
