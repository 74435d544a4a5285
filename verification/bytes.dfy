// Bytes and the numbers below 256
module Bytes {
  lemma Successor(b: bv8)
    requires b != 0xFF
    ensures (b + 1) as int == b as int + 1
  {}

  lemma ThereAndBack(b: bv8)
    ensures (b as int) as bv8 == b
  {}

  // The byte of a number, found by counting up to it
  lemma {:induction false} ByteAt(i: nat) returns (b: bv8)
    requires i < 256
    ensures b as int == i
  {
    b := 0;
    if i > 0 {
      var before := ByteAt(i - 1);
      Successor(before);
      b := before + 1;
    }
  }

  // A number below 256 is the value of the byte it names.
  lemma ByteIndex(i: nat)
    requires i < 256
    ensures (i as bv8) as int == i
  {
    var b := ByteAt(i);
    ThereAndBack(b);
  }
}
