/** Values shared by every part of the model. */
module Common {

  /** Python's `None` or a value. */
  datatype Option<+T> = None | Some(value: T)

  /** The exceptions that escape the modelled operations. */
  datatype Error =
    | IndexError          // a byte read past the end of a query buffer
    | NoSuitableAddress   // the RuntimeError raised when every address source came up empty
    | IfconfigFailed      // running `ifconfig` raised; nothing in the setter catches it
    | HostnameUnbound     // `socket.getfqdn` raised, so the handler's use of `hostname` raises UnboundLocalError
    | Unencodable         // a dotted part that `chr(int(x)).encode("latin-1")` rejects
    | NoEncodedAddress    // `_encoded_address` read before any setter call got as far as assigning it

  /** An operation that returns a value or raises. */
  datatype Result<+T> = Success(value: T) | Failure(error: Error)

  /** One octet of a UDP payload. */
  type byte = x: int | 0 <= x < 256
}
