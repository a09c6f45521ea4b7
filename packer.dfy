/** The final packing of three channels into one integer, `r << 16 | g << 8 | b`,
    computed on 64-bit unsigned integers. */
module Packer {

  function Pack(red: bv64, green: bv64, blue: bv64): (v: bv64)
    ensures red < 256 && green < 256 && blue < 256 ==>
      && v <= 0xFF_FFFF
      && (v >> 16) & 0xFF == red
      && (v >> 8) & 0xFF == green
      && v & 0xFF == blue
  {
    (red << 16) | (green << 8) | blue
  }

  /** The three eight-bit fields of a packed colour. */
  function Unpack(v: bv64): (rgb: (bv64, bv64, bv64))
    ensures rgb.0 < 256 && rgb.1 < 256 && rgb.2 < 256
  {
    ((v >> 16) & 0xFF, (v >> 8) & 0xFF, v & 0xFF)
  }

  /** Every value in `[0, 0xFFFFFF]` is the packing of its own fields, so packing
      is a bijection between byte triples and that range. */
  lemma PackUnpack(v: bv64)
    requires v <= 0xFF_FFFF
    ensures Pack(Unpack(v).0, Unpack(v).1, Unpack(v).2) == v
  {
  }

  /** Packing agrees with the arithmetic reading of the layout: red in bits
      16 to 23, green in bits 8 to 15, blue in bits 0 to 7. */
  lemma PackValue(red: bv64, green: bv64, blue: bv64)
    requires red < 256 && green < 256 && blue < 256
    ensures Pack(red, green, blue) == red * 0x1_0000 + green * 0x100 + blue
  {
  }
}
