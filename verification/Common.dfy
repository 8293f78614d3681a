/** Types shared by every component of the model. */
module Common {

  datatype Option<+T> = None | Some(value: T)

  /** One octet.  Bit fields are written with `/` and `%`, so `b % 32` is the source's `b & 0x1F`. */
  type byte = b: int | 0 <= b < 256

  const TWO_16: nat := 0x1_0000
  const TWO_32: nat := 0x1_0000_0000

  /** A 16-bit number sent big-endian. */
  function U16(high: byte, low: byte): (n: nat)
    ensures n < TWO_16
  {
    high as int * 256 + low as int
  }

  function Pow2(k: nat): (p: nat)
    ensures p > 0
  {
    if k == 0 then 1 else 2 * Pow2(k - 1)
  }

  lemma {:induction false} SubsetSize(a: set<nat>, b: set<nat>)
    requires a <= b
    ensures |a| <= |b|
  {
    if a != {} {
      var x :| x in a;
      SubsetSize(a - {x}, b - {x});
    }
  }
}
