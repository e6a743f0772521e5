/** Machine words, byte strings, optional values and sizes of sets, shared by the whole model. */
module Types {
  type byte = b: int | 0 <= b < 256
  type Bytes = seq<byte>

  const TWO_16: nat := 0x1_0000
  const TWO_64: nat := 0x1_0000_0000_0000_0000
  const TWO_128: nat := TWO_64 * TWO_64

  type u16 = n: int | 0 <= n < TWO_16
  type u64 = n: int | 0 <= n < TWO_64

  datatype Option<+T> = None | Some(value: T)

  /** Sum of two 64-bit words; release builds wrap around. */
  function Add64(a: u64, b: u64): u64 {
    (a + b) % TWO_64
  }

  function Max(a: int, b: int): int {
    if a < b then b else a
  }

  function Min(a: int, b: int): int {
    if a < b then a else b
  }

  lemma SubsetIsNotLarger<T>(a: set<T>, b: set<T>)
    requires a <= b
    ensures |a| <= |b|
  {
    assert b == a + (b - a);
  }

  lemma ProperSubsetIsSmaller<T>(a: set<T>, b: set<T>)
    requires a < b
    ensures |a| < |b|
  {
    var x :| x in b && x !in a;
    SubsetIsNotLarger(a, b - {x});
  }
}
