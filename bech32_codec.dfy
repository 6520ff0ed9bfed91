/*
 * The Bech32 codec that both address converters call (`bech32_decode` and
 * `bech32_encode` of the `bech32` library). The library is not part of this
 * model: a codec is a pair of uninterpreted functions, and the one property the
 * converters rely on, that decoding an encoding gives back its prefix and data
 * part, is a hypothesis (`RoundTrips`) that lemmas take as a precondition.
 */
module Bech32 {
  import opened Wrappers

  /** What `bech32_decode` returns: a human-readable prefix and the 5-bit data
    * part without its checksum; the library answers `(None, None)` for a
    * string it rejects. */
  datatype Decoded = Decoded(hrp: Option<string>, data: Option<seq<int>>)

  datatype Codec = Codec(decode: string -> Decoded, encode: (string, seq<int>) -> string)

  /** A character the Bech32 format of BIP 173 allows in a prefix: printable
    * US-ASCII (33 to 126). Upper-case letters are excluded because decoding
    * folds the string to lower case, so an upper-case prefix never comes back. */
  predicate PrefixChar(c: char) {
    33 as char <= c <= 126 as char && !('A' <= c <= 'Z')
  }

  /** A prefix and data part that BIP 173 lets an address carry: a non-empty
    * prefix of allowed characters, 5-bit data values, and at most 90 characters
    * in all (prefix, separator `1`, one character per value, six of checksum). */
  predicate Encodable(hrp: string, data: seq<int>) {
    && 1 <= |hrp|
    && (forall i :: 0 <= i < |hrp| ==> PrefixChar(hrp[i]))
    && (forall i :: 0 <= i < |data| ==> 0 <= data[i] < 32)
    && |hrp| + 1 + |data| + 6 <= 90
  }

  /** The round-trip law of a Bech32 codec, assumed of the library. */
  ghost predicate RoundTrips(codec: Codec) {
    forall hrp: string, data: seq<int> :: Encodable(hrp, data) ==>
      codec.decode(codec.encode(hrp, data)) == Decoded(Some(hrp), Some(data))
  }

  /** The decoder accepted the address: neither half of its answer is `None`. */
  predicate Decodes(codec: Codec, address: string) {
    codec.decode(address).hrp.Some? && codec.decode(address).data.Some?
  }

  /** The data part of an address the decoder accepted. */
  function Payload(codec: Codec, address: string): seq<int>
    requires Decodes(codec, address)
  {
    codec.decode(address).data.value
  }
}
