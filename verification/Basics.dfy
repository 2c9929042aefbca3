/**
 Small things every part of the model uses: machine words, order and size of numbers, and a
 value that may be missing.
 */
module Basics {

  const W32 := 0x1_0000_0000
  const W64 := 0x1_0000_0000_0000_0000

  type uint32 = x: int | 0 <= x < 0x1_0000_0000

  /** Storing an integer in a signed 32-bit word. */
  function Int32(x: int): int {
    var w := x % 0x1_0000_0000;
    if w >= 0x8000_0000 then w - 0x1_0000_0000 else w
  }

  predicate Fits32(x: int) {
    -0x8000_0000 <= x < 0x8000_0000
  }

  lemma InWord(x: int)
    ensures Int32(x) == x <==> Fits32(x)
  {
  }

  /** Whole words more or less make no difference. */
  lemma Int32Step(x: int, n: int)
    ensures Int32(x + n * W32) == Int32(x)
  {
  }

  lemma Int32Part(x: int) returns (n: int)
    ensures Int32(x) == x + n * W32
  {
    n := -(x / W32) - if x % W32 >= 0x8000_0000 then 1 else 0;
  }

  /** What is left of a sum is the sum of what is left, again in a word. */
  lemma Int32Adds(a: int, b: int)
    ensures Int32(Int32(a) + Int32(b)) == Int32(a + b)
  {
    hide Int32;
    var i := Int32Part(a);
    var j := Int32Part(b);
    Int32Step(a + b, i + j);
  }

  function Abs(x: int): nat {
    if x < 0 then -x else x
  }

  function Min(a: int, b: int): int {
    if a < b then a else b
  }

  function Max(a: int, b: int): int {
    if a < b then b else a
  }

  datatype Option<T> = None | Some(value: T)
}
