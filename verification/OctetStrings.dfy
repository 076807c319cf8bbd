/** Bytes as numbers. */
module OctetStrings {
  type octet = x: int | 0 <= x < 256

  type Octets = seq<octet>
}
