/** A byte as a bit vector and back. */
module BitVectors {
  lemma Successor(b: bv8)
    requires b < 255
    ensures (b + 1) as int == b as int + 1
  {
  }

  /** The bit vector counted up to a byte. */
  ghost function Counted(x: nat): (b: bv8)
    requires x < 256
    ensures b as int == x
  {
    if x == 0 then 0
    else
      Successor(Counted(x - 1));
      Counted(x - 1) + 1
  }

  lemma ByteAsBits(x: int)
    requires 0 <= x < 256
    ensures (x as bv8) as int == x
  {
    BitsAsByte(Counted(x));
  }

  lemma BitsAsByte(b: bv8)
    ensures 0 <= b as int < 256 && (b as int) as bv8 == b
  {
  }
}
