/** The fixed-width integer types of the program that the model keeps at
    their width: bytes and 32-bit code points and pixels, as bit-vectors so
    that masks and shifts mean what they mean in C. */
module Types {
  type u8 = bv8
  type u32 = bv32
}
