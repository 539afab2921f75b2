/** What every part of the model shares: option values, kernel status codes and 32-bit conversion. */
module MachTypes {

  datatype Option<T> = None | Some(value: T)

  const KERN_SUCCESS: nat := 0
  const KERN_INVALID_ADDRESS: nat := 1
  const KERN_PROTECTION_FAILURE: nat := 2
  const KERN_INVALID_ARGUMENT: nat := 4
  const KERN_FAILURE: nat := 5
  const KERN_INVALID_TASK: nat := 16
  const KERN_INVALID_RIGHT: nat := 17

  const TWO_31: nat := 0x8000_0000
  const TWO_32: nat := 0x1_0000_0000
  const TWO_64: nat := 0x1_0000_0000_0000_0000

  /** Conversion of a 64-bit value to a 32-bit int. */
  function Int32(x: int): int {
    var r := x % TWO_32;
    if r < TWO_31 then r else r - TWO_32
  }

  /** The result is the signed 32-bit int that differs from `x` by a multiple of 2^32. */
  lemma Int32Exactly(x: int)
    ensures -0x8000_0000 <= Int32(x) < 0x8000_0000
    ensures (x - Int32(x)) % 0x1_0000_0000 == 0
    ensures Int32(x) == 0 <==> x % 0x1_0000_0000 == 0
    ensures 0 <= x ==> (Int32(x) == x <==> x < 0x8000_0000)
  {
    var q, r := x / TWO_32, x % TWO_32;
    assert x == q * TWO_32 + r;
    if r < TWO_31 { Multiple(q); } else { Multiple(q + 1); }
  }

  lemma Multiple(q: int)
    ensures (q * 0x1_0000_0000) % 0x1_0000_0000 == 0
  {
  }
}
