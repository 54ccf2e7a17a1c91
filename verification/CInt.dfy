/** The width of the C type int. */
module CInt {
  const INT_MAX: int := 0x7fff_ffff
}
