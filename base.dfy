/** Small shared vocabulary: optional results, events, vectors and C++ integer conversions. */
module Base {

  datatype Option<+T> = None | Some(value: T)

  const TwoTo32: int := 0x1_0000_0000
  const TwoTo64: int := 0x1_0000_0000_0000_0000

  /** The values of a C++ `unsigned char` (an 8-bit image pixel). */
  type uint8 = x: int | 0 <= x < 256

  /** The values of a C++ `unsigned int` (u_int32_t). */
  type uint32 = x: int | 0 <= x < 0x1_0000_0000

  /** The value an `unsigned int` holds after it is assigned the exact integer `v` (modular). */
  function Wrap32(v: int): (r: uint32)
    ensures 0 <= v < TwoTo32 ==> r == v
    ensures (r - v) % TwoTo32 == 0
  {
    v % TwoTo32
  }

  /** The `int` (two's complement) that an `unsigned int` is converted to. */
  function AsInt32(u: uint32): (r: int)
    ensures -0x8000_0000 <= r < 0x8000_0000
    ensures u < 0x8000_0000 ==> r == u
  {
    if u < 0x8000_0000 then u else u - TwoTo32
  }

  /** A C++ float-to-int cast: truncation toward zero. */
  function TruncToInt(r: real): (i: int)
    ensures r >= 0.0 ==> i == r.Floor
    ensures (i as real) <= r < (i as real) + 1.0 || (i as real) - 1.0 < r <= (i as real)
  {
    if r >= 0.0 then r.Floor else -((-r).Floor)
  }

  /** A DVS event as `dv::Event` carries it: timestamp in microseconds, pixel column and row, polarity. */
  datatype Event = Event(timestamp: int, x: int, y: int, polarity: bool)

  datatype Vec2 = Vec2(x: real, y: real)
  datatype Vec3 = Vec3(x: real, y: real, z: real)
}
