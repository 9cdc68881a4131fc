/** Failure-carrying values used throughout the model: Go's `(value, error)` pairs become `Result`,
    and values that may be absent (a map lookup, a parse) become `Option`. */
module Results {

  datatype Option<+T> = None | Some(value: T)

  /** The error kinds the daemon's functions report. Go returns them as `error` values; the model
      keeps only which kind it was. */
  datatype Error =
    | CorruptInput        // base32.CorruptInputError
    | InvalidSubdomain    // decoded payload is not 16 bytes
    | InvalidIPData       // the (unreachable) nil-address branch
    | InvalidSubnet       // decoded address outside the trusted subnet
    | InvalidIPAddress    // net.ParseIP rejected the text
    | InvalidDomain       // the CLI name has too few parts
    | InvalidLength       // the CLI label is not 26 bytes long
    | AlreadyStarted      // Start on a running server
    | BadRecord(text: string)  // dns.NewRR rejected this record text

  datatype Result<+T> = Success(value: T) | Failure(error: Error)
}
