/** A parsed value is one 64-bit word: either the bits of a double, or a tag and a pointer hidden
    in the space the quiet NaNs leave. */
module JsonBox {
  const NAN_MASK: bv64 := 0x7FF8_0000_0000_0000
  const PAYLOAD_MASK: bv64 := 0x0000_7FFF_FFFF_FFFF
  const SIGN_BIT: bv64 := 0x8000_0000_0000_0000

  const JSON_NUMBER: bv64 := 0
  const JSON_STRING: bv64 := 1
  const JSON_NULL: bv64 := 0xF

  function Box(tag: bv64, payload: bv64): bv64
    requires tag <= JSON_NULL && payload <= PAYLOAD_MASK
  {
    NAN_MASK | (tag << 47) | payload
  }

  /** Both words are compared as signed 64-bit numbers. */
  predicate IsDouble(word: bv64) {
    (word ^ SIGN_BIT) <= (NAN_MASK ^ SIGN_BIT)
  }

  function GetTag(word: bv64): bv64 {
    if IsDouble(word) then JSON_NUMBER else (word >> 47) & 0xF
  }

  function GetPayload(word: bv64): bv64
    requires !IsDouble(word)
  {
    word & PAYLOAD_MASK
  }

  /** The bits of a double which is not a number: exponent all ones, mantissa not zero. */
  predicate IsNaN(word: bv64) {
    (word & 0x7FF0_0000_0000_0000) == 0x7FF0_0000_0000_0000 && (word & 0x000F_FFFF_FFFF_FFFF) != 0
  }

  lemma BoxIsNotDouble(tag: bv64, payload: bv64)
    requires JSON_STRING <= tag <= JSON_NULL && payload <= PAYLOAD_MASK
    ensures !IsDouble(Box(tag, payload))
  {
    assert JSON_STRING << 47 <= tag << 47 <= JSON_NULL << 47;
  }

  lemma BoxKeepsTag(tag: bv64, payload: bv64)
    requires tag <= JSON_NULL && payload <= PAYLOAD_MASK
    ensures (Box(tag, payload) >> 47) & 0xF == tag
  {
  }

  lemma BoxKeepsPayload(tag: bv64, payload: bv64)
    requires tag <= JSON_NULL && payload <= PAYLOAD_MASK
    ensures Box(tag, payload) & PAYLOAD_MASK == payload
  {
  }

  /** What goes into a box comes out, for every tag but that of numbers. */
  lemma BoxKeepsTagAndPayload(tag: bv64, payload: bv64)
    requires JSON_STRING <= tag <= JSON_NULL && payload <= PAYLOAD_MASK
    ensures !IsDouble(Box(tag, payload))
    ensures GetTag(Box(tag, payload)) == tag && GetPayload(Box(tag, payload)) == payload
  {
    BoxIsNotDouble(tag, payload);
    BoxKeepsTag(tag, payload);
    BoxKeepsPayload(tag, payload);
  }

  /** No double that is a number is taken for a box, whatever its sign; a box is never the bits
      of such a double. */
  lemma DoublesAreNotBoxes(number: bv64, tag: bv64, payload: bv64)
    requires !IsNaN(number)
    requires JSON_STRING <= tag <= JSON_NULL && payload <= PAYLOAD_MASK
    ensures IsDouble(number) && GetTag(number) == JSON_NUMBER
    ensures number != Box(tag, payload) && IsNaN(Box(tag, payload))
  {
    BoxKeepsTagAndPayload(tag, payload);
  }

  /** Some of the doubles that are not numbers do read as boxes: exactly the positive ones above
      the first quiet one. */
  lemma NaNReadAsBoxIff(word: bv64)
    requires IsNaN(word)
    ensures !IsDouble(word) <==> word & SIGN_BIT == 0 && word > NAN_MASK
    ensures !IsDouble(word) ==> word == Box((word >> 47) & 0xF, word & PAYLOAD_MASK)
  {
  }
}
