// JsonValue: a tag and a pointer in the bits of a NaN.
module GasonValues {

  const PAYLOAD_MASK: bv64 := 0x0000_7FFF_FFFF_FFFF
  const NAN_MASK: bv64 := 0x7FF8_0000_0000_0000
  const NULL_BITS: bv64 := 0x7FFF_8000_0000_0000
  const TAG_MASK: bv64 := 0xF

  // JSON_VALUE_TAG_SHIFT is 47.
  function Pack(tag: bv64, x: bv64): bv64 {
    NAN_MASK | (tag << 47) | x
  }

  // The comparison is one of signed integers.
  predicate IsDouble(i: bv64) {
    i >= 0x8000_0000_0000_0000 || i <= NAN_MASK
  }

  function GetTag(i: bv64): bv64 {
    if IsDouble(i) then 0 else (i >> 47) & TAG_MASK
  }

  function GetPayload(i: bv64): bv64 {
    i & PAYLOAD_MASK
  }

  // Every tag and every pointer below 2^47 come back, and what was packed is told from a double, but for the number
  // at the null pointer, which is the one value whose payload may not be asked for.
  lemma PackedComesBack(tag: bv64, x: bv64)
    requires tag <= 15 && x <= 0x7FFF_FFFF_FFFF
    ensures GetTag(Pack(tag, x)) == tag && GetPayload(Pack(tag, x)) == x
    ensures IsDouble(Pack(tag, x)) <==> tag == 0 && x == 0
  {
    assert tag << 47 <= 0x0007_8000_0000_0000 && (tag << 47) & PAYLOAD_MASK == 0;
    assert ((tag << 47) >> 47) == tag;
  }

  // The value of null is the tag 15 without a pointer; no other tag and pointer give it.
  lemma NullIsTag15(tag: bv64, x: bv64)
    requires tag <= 15 && x <= 0x7FFF_FFFF_FFFF
    ensures Pack(tag, x) == NULL_BITS <==> tag == 15 && x == 0
    ensures NULL_BITS == 0x7FFF_8000_0000_0000
  {
    PackedComesBack(tag, x);
    PackedComesBack(15, 0);
  }
}
