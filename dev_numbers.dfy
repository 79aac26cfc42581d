/** Device numbers: the kernel's 32-bit `dev_t` with a 20-bit minor, and
    the 8-bit packing the user-space server uses as a map key. */
module DevNumbers {
  const MINORBITS: bv32 := 20
  const MINORMASK: bv32 := 0xF_FFFF

  /** A `dev_t`. */
  type Dev = bv32

  /** The kernel's `MKDEV(ma, mi)`: `ma << 20 | mi`. */
  function Mkdev(major: bv32, minor: bv32): Dev
  {
    (major << MINORBITS) | minor
  }

  /** `MAJOR(dev)`. */
  function Major(dev: Dev): bv32
  {
    dev >> MINORBITS
  }

  /** `MINOR(dev)`. */
  function Minor(dev: Dev): bv32
  {
    dev & MINORMASK
  }

  /** A major below 4096 and a minor below 2^20 are recovered from the
      device number, so such pairs get distinct numbers. */
  lemma MkdevRoundTrip(major: bv32, minor: bv32)
    requires major < 0x1000 && minor < 0x10_0000
    ensures Major(Mkdev(major, minor)) == major && Minor(Mkdev(major, minor)) == minor
  {
  }

  /** Every device number is the packing of its own major and minor. */
  lemma MkdevOfParts(dev: Dev)
    ensures Mkdev(Major(dev), Minor(dev)) == dev
  {
  }

  /** A minor of 2^20 or more runs into the major. */
  lemma MkdevCollision()
    ensures Mkdev(0, 0x10_0000) == Mkdev(1, 0)
  {
  }

  /** The server's `MKDEV(ma, mi)`: `ma << 8 | mi` on an unsigned int. */
  function Mkdev8(major: bv32, minor: bv32): bv32
  {
    (major << 8) | minor
  }

  /** The server's packing keeps minors below 256 apart: two pairs with
      such minors and majors below 2^24 get the same key only if they are
      the same pair. */
  lemma Mkdev8Injective(ma1: bv32, mi1: bv32, ma2: bv32, mi2: bv32)
    requires ma1 < 0x100_0000 && ma2 < 0x100_0000 && mi1 < 0x100 && mi2 < 0x100
    requires Mkdev8(ma1, mi1) == Mkdev8(ma2, mi2)
    ensures ma1 == ma2 && mi1 == mi2
  {
    Mkdev8RoundTrip(ma1, mi1);
    Mkdev8RoundTrip(ma2, mi2);
  }

  lemma Mkdev8RoundTrip(major: bv32, minor: bv32)
    requires major < 0x100_0000 && minor < 0x100
    ensures Mkdev8(major, minor) >> 8 == major && Mkdev8(major, minor) & 0xFF == minor
  {
  }

  /** A minor of 256 or more runs into the major: 0:256 and 1:0 share a
      key. */
  lemma Mkdev8Collision()
    ensures Mkdev8(0, 256) == Mkdev8(1, 0)
  {
  }
}
