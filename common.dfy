/** The optional value that stands for Ruby's `nil`. */
module Wrappers {

  datatype Option<+T> = None | Some(value: T)
}

/** Octets, as OpenSSL and the base64 and percent encodings see a Ruby string. */
module Bytes {

  type byte = x: int | 0 <= x < 256
}
