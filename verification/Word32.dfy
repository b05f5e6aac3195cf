/** C's `unsigned int`: 32-bit words, wrap-around, and the reading of a word as a signed
    difference. */
module Word32 {
  const TWO_31: int := 0x8000_0000
  const TWO_32: int := 0x1_0000_0000
  const UINT_MAX: int := 0xffff_ffff

  type u32 = x: int | 0 <= x < 0x1_0000_0000

  /** The value an `unsigned int` holds after the exact result `x` was stored in it. */
  function Wrap(x: int): u32 {
    x % TWO_32
  }

  /** The C cast `(int)x`. */
  function Signed(x: u32): int {
    if x < TWO_31 then x else x - TWO_32
  }

  function Min(a: int, b: int): int {
    if a <= b then a else b
  }

  function Max(a: int, b: int): int {
    if a >= b then a else b
  }

  /** Free-running counters are compared by signed difference: as long as the true values are
      less than 2^31 apart the comparison is exact, however often the counters wrapped. */
  lemma SignedDifferenceIsExact(a: int, b: int)
    requires -TWO_31 <= a - b < TWO_31
    ensures Signed(Wrap(Wrap(a) - Wrap(b))) == a - b
  {
  }

  lemma WrapOfDifference(a: int, b: int)
    requires 0 <= a - b < TWO_32
    ensures Wrap(Wrap(a) - Wrap(b)) == a - b
  {
  }

  lemma WrapOfSum(a: int, b: int)
    ensures Wrap(Wrap(a) + b) == Wrap(a + b)
  {
  }

  lemma SmallWord(x: int)
    requires 0 <= x < TWO_32
    ensures Wrap(x) == x
  {
  }

  /** The request a signed-difference clamp lets through when `room` bytes are really there. */
  function Clamped(nbytes: u32, room: int): int {
    if Signed(Wrap(nbytes - room)) > 0 then room else nbytes
  }

  /** The clamp grants the smaller of request and room exactly when the request is less than
      2^31 bytes above the room; beyond that the sign flips and the request passes unclamped. */
  lemma ClampIsExact(nbytes: u32, room: int)
    requires 0 <= room < TWO_31
    ensures Clamped(nbytes, room) == Min(nbytes, room) <==> nbytes < TWO_31 + room
  {
  }

  /** What the clamp grants, as a word: the smaller of request and room, or all of a request that
      is out of its reach. */
  lemma ClampGrants(nbytes: u32, room: int)
    requires 0 <= room < TWO_31
    ensures Clamped(nbytes, room) == if nbytes < TWO_31 + room then Min(nbytes, room) else nbytes
  {
  }

  /** A request the clamp misjudges: 2^31 bytes asked of an empty buffer are all granted. */
  lemma ClampMissesHugeRequest()
    ensures Clamped(0x8000_0000, 0) == 0x8000_0000
  {
  }
}
