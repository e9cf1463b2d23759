/** The bit ordering within a byte, shared by every reader, writer and view. */
module Order {

  datatype BitOrder =
    /** Least significant bit first: bit 0 of a byte is its lowest bit, as in a BitArray. */
    | Lsb0
    /** Most significant bit first: bit 0 of a byte is its highest bit, as a debugger shows it. */
    | Msb0
}
