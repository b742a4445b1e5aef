/** Bytes as numbers and as eight bits. */
module Bytes {

  /** A byte is the same number as eight bits. */
  lemma ByteBack(b: int)
    requires 0 <= b < 256
    ensures (b as bv8) as int == b
  {}
}
