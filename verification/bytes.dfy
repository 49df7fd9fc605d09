/** Octets, as produced by `bytes(s, 'utf-8')` and consumed by `base64.b64encode`. */
module Bytes {

  type byte = x: int | 0 <= x < 256
}
