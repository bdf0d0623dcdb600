/** The `Hash` key type: a 64-bit value wrapped in a struct (levk/core/include/levk/core/hash.hpp). */
module Hashing {

  const SizeMax: nat := 0x1_0000_0000_0000_0000

  /** `std::size_t` on a 64-bit target. */
  type U64 = x: nat | x < SizeMax

  /** `Hash`: equality is equality of the stored value. */
  datatype Hash = Hash(value: U64)

  /** A default-constructed `Hash` holds 0. */
  function Default(): (h: Hash)
    ensures h.value == 0
  {
    Hash(0)
  }

  /** `Hash(std::size_t)`: copies the value directly. */
  function FromSize(n: U64): (h: Hash)
    ensures h.value == n
    ensures n == 0 <==> h == Default()
  {
    Hash(n)
  }

  /** `operator std::size_t`. */
  function ToSize(h: Hash): U64 {
    h.value
  }

  /**
   * `Hash::compute` for a string-like value: the empty string (and so the empty
   * path and `nullptr`) hashes to 0, anything else to `std::hash` of it.
   * `std::hash` itself is opaque, so it is passed in as `strHash`.
   */
  function OfString(s: string, strHash: string -> U64): (h: Hash)
    ensures s == [] ==> h == Default()
    ensures s != [] ==> h.value == strHash(s)
  {
    if s == [] then Hash(0) else Hash(strHash(s))
  }

  /** `std::hash<le::Hash>`: the identity on the stored value. */
  function StdHash(h: Hash): (r: U64)
    ensures FromSize(r) == h
  {
    h.value
  }

  /** Converting a size to a `Hash` and back gives the size; and the other way round. */
  lemma SizeRoundTrip(n: U64, h: Hash)
    ensures ToSize(FromSize(n)) == n
    ensures FromSize(ToSize(h)) == h
  {
  }

  /** Two hashes compare equal exactly when their stored values are equal. */
  lemma EqualityIsValueEquality(a: Hash, b: Hash)
    ensures a == b <==> ToSize(a) == ToSize(b)
  {
  }

  /**
   * `Hash(char const (&)[N])`, the constructor a string literal picks: it
   * hashes the text with `std::hash` directly and so skips the empty-string
   * rule of `compute`, unlike `Hash(std::string)` and the `_h` literal.
   */
  function OfLiteralAsWritten(s: string, strHash: string -> U64): (h: Hash)
    ensures h.value == strHash(s)
  {
    Hash(strHash(s))
  }

  /**
   * The empty literal disagrees with the empty `std::string` as soon as
   * `std::hash` of "" is not 0, which is what common standard libraries
   * give: `Hash("")` is then not the default hash.
   */
  lemma EmptyLiteralMismatch(strHash: string -> U64)
    requires strHash("") != 0
    ensures OfLiteralAsWritten("", strHash) != OfString("", strHash)
    ensures OfLiteralAsWritten("", strHash) != Default()
  {
  }

  /** The literal constructor routed through `compute`, as every other string form is. */
  function OfLiteral(s: string, strHash: string -> U64): (h: Hash)
    ensures s == [] ==> h == Default()
    ensures s != [] ==> h == OfLiteralAsWritten(s, strHash)
  {
    OfString(s, strHash)
  }

  /** Every spelling of a string now gives the same key, and "" gives 0. */
  lemma LiteralAgreesWithString(s: string, strHash: string -> U64)
    ensures OfLiteral(s, strHash) == OfString(s, strHash)
    ensures OfLiteral("", strHash) == Default()
  {
  }
}
